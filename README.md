# Library catalogue — a Dafny model

This project models the core of a small Java library catalogue and proves properties of that model. The core has four parts:

- **The entity model.** The core has four entities:
  - `Book`, with its two variants `EBook` and `PrintedBook`;
  - `Author`.

  Their guarded setters reject a bad value and leave the object unchanged. The book variants also have an availability state machine (`borrow` / `returnItem`), a linear late fee and an ordered validator. Two interfaces supply the predicates and derived values these build on: `Validatable` and `Borrowable`.
- **Stable sorting.** `SortingUtils.sortBy` copies the list and sorts the copy. Here that is an insertion sort over an array, proved equal to a reference stable sort, and the reference is proved to be a sorted, stable permutation.
- **The repositories.** The relational store is a class holding the `authors` and `books` tables as sequences of rows, with key counters and the foreign key from `books.author_id` to `authors.id`. The author and book repositories work on that store:
  - the book repository maps a stored row to a book by its `book_type` discriminator;
  - `save` and `update` dispatch on the book's variant;
  - `save` back-fills the generated key.
- **The services.** `BookServiceImpl` and `AuthorServiceImpl` hold the rules checked before a write:
  - ordered validation;
  - existence of the referenced author;
  - uniqueness of the ISBN and of the author name;
  - existence before update and delete;
  - translation of a failed author delete.

## How the model is organised

- **Modules.** Most modules follow one source file or package:
  - `Authors`, `Books`, `EBooks`, `PrintedBooks`, `Validatable`, `Borrowable`: `src/model`;
  - `Sorting`: `src/utils/SortingUtils.java`;
  - `AuthorStore`, `BookStore`: the two repository implementations;
  - `AuthorServices`, `BookServices`: the two service implementations.

  Two modules follow no source file:
  - `Tables` stands for the database the repositories talk to: the `authors` and `books` tables, their generated keys and the foreign key from books to authors;
  - `BookVariants` stands for the `instanceof` tests on a `Book` reference, and for reading the objects behind one.
- **Shared helpers.**
  - `Common` holds `Option` (a Java reference that may be null) and `Outcome` / `Result` (a call that may throw). It also holds `Error`, the service exceptions: `InvalidInput`, `DuplicateResource` (a subclass of invalid input in the source), `NotFound` and `DbFailure` (the wrapped `DatabaseOperationException`).
  - `Text` models the parts of `java.lang.String` the core uses.
  - `Seqs` holds the filter and find-first used by the queries.
- **The Book hierarchy.** It is modelled by composition. `EBook` and `PrintedBook` hold a `Books.Book` for the shared fields. `BookVariants.BookRef` is a `Book` reference whose dynamic class is tested with `instanceof`. `BookVariants.Snapshot` reads the objects behind a reference into a `BookValue`.
- **Specification by reference functions.** Repository and service methods that modify state are specified against pure functions of the old state:
  - `CreateDecision` / `UpdateDecision` for the checks;
  - `MapRows` for the result-set loops;
  - `Tables.UpdateBookRows` and similar for the SQL statements;
  - `Sorting.StableSorted` for `List.sort`.

  The properties the source promises are proved about those functions.

## Model

| member | source | states |
|---|---|---|
| Validatable.IsNotNull | src/model/Validatable.java:25-27 | definition, used by the setters and validators: holds exactly when the reference is not null |
| Validatable.IsNotEmptyIff | src/model/Validatable.java:29-31 | `isNotEmpty` holds exactly when the string is non-null and has a char above U+0020, i.e. it is not blank after `trim` |
| Validatable.IsPositive | src/model/Validatable.java:33-35 | definition, used by `setId`: holds exactly when the number is greater than 0 |
| Validatable.IsValidYear | src/model/Validatable.java:37-39 | definition, used by the entity validators and by `YearChecksNested`: holds exactly for years 1 to 2026 |
| Validatable.YearChecksNested | src/model/Validatable.java:37-39 | the year range 1..2026 of `isValidYear` lies inside the setters' range 0..2026; they differ only at 0, and both reject 2027 |
| Validatable.DemoValues | src/controller/LibraryController.java:326-329 | `isNotEmpty("hello")` holds, `isNotEmpty("")` does not, `isValidYear(2020)` holds and `isValidYear(3000)` does not |
| Validatable.FirstFailure | src/model/EBook.java:67-79 | an ordered validator's result is none exactly when every rule holds; otherwise it is the message of the first failing rule |
| Validatable.FirstFailureOfFirstFailing | src/model/PrintedBook.java:60-72 | when rule k fails and all earlier rules hold, the validator reports rule k's message |
| Validatable.ErrorText | src/model/EBook.java:67-79 | the error text is empty exactly when every rule holds, else it is the first failing rule's message |
| Validatable.ErrorTextOfFirstFailing | src/model/PrintedBook.java:60-72 | the error text is rule k's message when rule k is the first to fail |
| Validatable.ValidationSummary | src/model/Validatable.java:18-23 | the summary is `[Class] Valid: <valid>`; the suffix ` - <error>` is present only when validation fails |
| Borrowable.CalculateDefaultLateFee | src/model/Borrowable.java:11-15 | the fee is 0 for a non-positive number of days, and days × rate otherwise |
| Borrowable.BorrowingStatus | src/model/Borrowable.java:17-19 | "Available for borrowing" exactly when available, otherwise "Currently borrowed" |
| Borrowable.IsValidBorrowingPeriod | src/model/Borrowable.java:21-23 | definition, used by `LateFeeAtMostMax`: holds exactly for 1 to 30 days |
| Borrowable.MaxLateFee | src/model/Borrowable.java:25-27 | equals the default fee for 30 days |
| Borrowable.LateFeeMonotonic | src/model/Borrowable.java:11-15 | with a non-negative rate the fee is non-negative and never decreases with more days |
| Borrowable.LateFeeStrictlyIncreasing | src/model/Borrowable.java:11-15 | with a positive rate the fee strictly increases over positive days |
| Borrowable.LateFeeAtMostMax | src/model/Borrowable.java:11-27 | within a valid borrowing period the fee is at most `getMaxLateFee` |
| Borrowable.DemoValues | src/controller/LibraryController.java:332-334 | 14 days is a valid period, 45 is not, and `getMaxLateFee(0.5)` is 15.0 |
| Authors.Author.constructor | src/model/Author.java:8-13 | stores id, name, birth year and nationality unchecked |
| Authors.Author.SetId | src/model/Author.java:33-37 | the id changes only to a positive value; otherwise nothing changes |
| Authors.Author.SetName | src/model/Author.java:39-43 | fails with "Name cannot be empty." on a null or blank name, without change; otherwise sets the name; only the name field may change |
| Authors.Author.SetBirthYear | src/model/Author.java:45-49 | accepts exactly 0..2026; fails with "Invalid year." and no change otherwise |
| Authors.Author.SetNationality | src/model/Author.java:51-55 | fails with "Nationality cannot be empty." on a null or blank value, without change |
| Books.Book.constructor | src/model/Book.java:13-19 | stores id, title, author, year and isbn unchecked; no book type yet |
| Books.Book.SetId | src/model/Book.java:45-49 | the id changes only to a positive value |
| Books.Book.SetTitle | src/model/Book.java:51-56 | fails with "Title cannot be empty" on a null or blank title, without change; otherwise sets it |
| Books.Book.SetYear | src/model/Book.java:58-63 | accepts exactly 0..2026 and fails with "Invalid year" and no change otherwise |
| Books.Book.SetAuthor | src/model/Book.java:65-70 | rejects null with "Author cannot be null", without change |
| Books.Book.SetBookType | src/model/Book.java:72-77 | rejects only null; any other string, blank included, is stored |
| Books.Book.SetIsbn | src/model/Book.java:79-81 | stores any value, null and empty included; each setter's frame is its own field |
| EBooks.EBook.constructor | src/model/EBook.java:9-14 | a new e-book is available, charges 0.25 a day and is tagged "EBOOK"; the other fields are stored as given |
| EBooks.EBook.CalculateLateFee | src/model/EBook.java:17-21 | the fee is 0 for non-positive days and days × late fee otherwise, i.e. the `Borrowable` default at this book's rate |
| EBooks.EBook.AccessInstructions | src/model/EBook.java:24-26 | "Visit the website: " followed by the download URL (`null` when it is null) |
| EBooks.EBook.Borrow | src/model/EBook.java:44-50 | available becomes false; a borrowed e-book stays borrowed and nothing else changes |
| EBooks.EBook.ReturnItem | src/model/EBook.java:53-55 | available is true afterwards, whatever the state before |
| EBooks.EBook.SetAvailable | src/model/EBook.java:81-83 | sets availability |
| EBooks.EBook.SetLateFee | src/model/EBook.java:89-94 | rejects a negative fee without change |
| EBooks.EBook.SetDownloadUrl | src/model/EBook.java:100-105 | rejects a null or blank URL without change |
| EBooks.EBook.SetFilesize | src/model/EBook.java:111-116 | rejects a negative size without change |
| EBooks.EBook.ValidationError | src/model/EBook.java:67-79 | empty exactly when all rules hold, else the first failing rule's message |
| EBooks.EBook.Validate | src/model/EBook.java:58-64 | the yes/no check holds exactly when the error text is empty |
| EBooks.EBook.ValidateAndLog | src/model/Validatable.java:9-16 | returns exactly the result of `validate` |
| EBooks.EBook.ValidationSummary | src/model/Validatable.java:18-23 | the default summary for class `EBook` |
| EBooks.RulesHoldIff | src/model/EBook.java:58-64 | all rules hold exactly when title, author, year, URL and file size all pass |
| EBooks.ValidationOrder | src/model/EBook.java:67-79 | the reported error follows the order title, author, year (`isValidYear`, so year 0 fails), URL, file size |
| PrintedBooks.PrintedBook.constructor | src/model/PrintedBook.java:9-15 | a new printed book is available, charges 0.5 a day and is tagged "PRINTED" |
| PrintedBooks.PrintedBook.CalculateLateFee | src/model/PrintedBook.java:17-22 | 0 for non-positive days, days × late fee otherwise |
| PrintedBooks.PrintedBook.AccessInstructions | src/model/PrintedBook.java:25-27 | "Located at: " followed by the shelf location |
| PrintedBooks.PrintedBook.Borrow | src/model/PrintedBook.java:35-41 | true becomes false; false stays false with no change |
| PrintedBooks.PrintedBook.ReturnItem | src/model/PrintedBook.java:44-48 | available afterwards; returning an available book changes nothing |
| PrintedBooks.PrintedBook.SetAvailable | src/model/PrintedBook.java:74-76 | sets availability |
| PrintedBooks.PrintedBook.SetShelfLocation | src/model/PrintedBook.java:82-87 | rejects a null or blank location without change |
| PrintedBooks.PrintedBook.SetWeight | src/model/PrintedBook.java:93-98 | rejects a negative weight without change |
| PrintedBooks.PrintedBook.SetLateFee | src/model/PrintedBook.java:104-109 | rejects a negative fee without change |
| PrintedBooks.PrintedBook.ValidationError | src/model/PrintedBook.java:60-72 | empty exactly when all rules hold, else the first failing rule's message |
| PrintedBooks.PrintedBook.Validate | src/model/PrintedBook.java:51-57 | holds exactly when the error text is empty |
| PrintedBooks.PrintedBook.ValidateAndLog | src/model/Validatable.java:9-16 | returns exactly the result of `validate` |
| PrintedBooks.PrintedBook.ValidationSummary | src/model/Validatable.java:18-23 | the default summary for class `PrintedBook` |
| PrintedBooks.RulesHoldIff | src/model/PrintedBook.java:51-57 | all rules hold exactly when title, author, year, shelf location and weight all pass |
| PrintedBooks.ValidationOrder | src/model/PrintedBook.java:60-72 | the reported error follows the order title, author, year, shelf location, weight |
| Text.Trim | src/model/Validatable.java:29-31 | `trim` returns the slice of the string between some i and j such that every char before i and from j on is ≤ U+0020, and the slice, if not empty, starts and ends with a char above U+0020 |
| Text.TrimEmptyIffAllTrimmable | src/model/Validatable.java:29-31 | a string trims to empty exactly when all its chars are ≤ U+0020 |
| Text.ContainsIff | src/service/BookServiceImpl.java:91 | `contains` holds exactly when the keyword occurs at some index |
| Text.CompareIgnoreCaseAntisymmetric | src/service/BookServiceImpl.java:59 | swapping the arguments of `compareToIgnoreCase` negates the result |
| Text.CompareIgnoreCaseZeroIff | src/service/BookServiceImpl.java:59 | the comparison is 0 exactly when both strings fold to the same string |
| Text.CompareIgnoreCaseTransitive | src/service/BookServiceImpl.java:59 | "not after" under `compareToIgnoreCase` is transitive |
| Sorting.StableSortedMultiset | src/utils/SortingUtils.java:9-13 | the reference stable sort is a permutation of its input |
| Sorting.StableSortedSorted | src/utils/SortingUtils.java:11 | under a total preorder the reference sort is ordered non-decreasingly |
| Sorting.StableSortedStable | src/utils/SortingUtils.java:11 | each class of equivalent elements keeps its input order |
| Sorting.StableSortedOfSorted | src/utils/SortingUtils.java:9-13 | sorting an already sorted list returns it unchanged |
| Sorting.StableSortedIdempotent | src/utils/SortingUtils.java:9-13 | sorting twice equals sorting once |
| Sorting.InsertStep | src/utils/SortingUtils.java:11 | one insertion pass on the array inserts element i into the sorted prefix, leaving the rest untouched |
| Sorting.SortBy | src/utils/SortingUtils.java:9-13 | the array insertion sort on a copy equals the reference sort; it is a permutation, sorted and stable |
| Sorting.ReversedPreorder | src/utils/SortingUtils.java:17 | the reversed comparator is again a total preorder |
| Sorting.SortByDescending | src/utils/SortingUtils.java:15-19 | non-increasing order; a permutation; elements equal under the comparator keep their input order |
| Sorting.IntegerCompare | src/service/BookServiceImpl.java:65 | `Integer.compare` is negative, zero or positive exactly as x < y, x = y, x > y |
| Sorting.IgnoreCasePreorder | src/utils/SortingUtils.java:22 | the case-insensitive comparator is a total preorder |
| Sorting.LengthPreorder | src/utils/SortingUtils.java:26 | the length comparator is a total preorder |
| Sorting.SortStringsAlphabetically | src/utils/SortingUtils.java:21-23 | a permutation ordered by `compareToIgnoreCase` |
| Sorting.SortStringsByLength | src/utils/SortingUtils.java:25-27 | a permutation with non-decreasing lengths; strings of equal length keep their order |
| Seqs.Filter | src/service/BookServiceImpl.java:90-92 | the filter keeps exactly the elements satisfying the predicate |
| Seqs.FilterAppend | src/service/BookServiceImpl.java:90-92 | filtering distributes over concatenation, so order is kept |
| Seqs.FilterAll | src/service/BookServiceImpl.java:90-92 | filtering with a predicate every element satisfies returns the input |
| Seqs.FilterPairwise | src/repository/interfaces/CrudRepository.java:5-18 | deleting rows keeps a pairwise property such as distinct ids |
| Seqs.First | src/repository/AuthorRepositoryImpl.java:126-142 | the first element satisfying the predicate, or none exactly when no element does |
| Tables.UpdateBookRowsMissing | src/repository/BookRepositoryImpl.java:134-153 | an UPDATE naming a missing id changes no row |
| Tables.Database.constructor | src/repository/interfaces/CrudRepository.java:5-18 | an empty store satisfies the store invariant |
| Tables.Database.InsertAuthor | src/repository/AuthorRepositoryImpl.java:15-33 | appends the row under the next key, which is returned; the invariant is kept |
| Tables.Database.UpdateAuthor | src/repository/AuthorRepositoryImpl.java:73-87 | replaces the row with the author's id |
| Tables.UpdateAuthorRowsKeys | src/repository/AuthorRepositoryImpl.java:73-87 | an author update keeps every key in range and distinct, so every book row still names a stored author |
| Tables.Database.DeleteAuthor | src/repository/AuthorRepositoryImpl.java:90-105 | fails with a foreign-key violation exactly when a book references the author; otherwise it removes that author |
| Tables.Database.InsertBook | src/repository/BookRepositoryImpl.java:33-83 | inserts under the next key exactly when the author exists, else violates the foreign key and changes nothing |
| Tables.Database.UpdateBook | src/repository/BookRepositoryImpl.java:134-174 | updates the row with the id; fails without change only when the row exists and the new author does not |
| Tables.UpdateBookRowsKeys | src/repository/BookRepositoryImpl.java:134-174 | a book update keeps keys in range and distinct, and keeps the foreign key when the new author is stored or no row matches |
| Tables.Database.DeleteBook | src/repository/BookRepositoryImpl.java:177-188 | removes exactly the rows with the id; the invariant is kept |
| AuthorStore.DeleteFailure | src/repository/AuthorRepositoryImpl.java:98-103 | every SQL failure of the delete becomes a database failure; the "books reference this author" message is chosen exactly when the backend's text contains "foreign key" or "violates" |
| AuthorStore.ForeignKeyViolationRecognised | src/repository/AuthorRepositoryImpl.java:99-101 | the store's foreign-key error is recognised as a referenced author |
| AuthorStore.FindAuthor | src/repository/AuthorRepositoryImpl.java:36-52 | finds a row with the id exactly when one exists |
| AuthorStore.AuthorRepository.FindById | src/repository/AuthorRepositoryImpl.java:36-52 | finds a stored author exactly when one has that id, and the one found has it |
| AuthorStore.AuthorRepository.ExistsById | src/repository/AuthorRepositoryImpl.java:108-123 | true exactly when `findById` finds the author |
| AuthorStore.AuthorRepository.FindByName | src/repository/AuthorRepositoryImpl.java:126-142 | finds an author with exactly that name; a null name finds nothing |
| AuthorStore.FindName | src/repository/AuthorRepositoryImpl.java:126-142 | the row found has exactly that name and is stored; none is found exactly when the name is null or no row has it |
| AuthorStore.AuthorRepository.FindByNationality | src/repository/AuthorRepositoryImpl.java:145-162 | returns exactly the authors with that nationality; a null nationality gives none |
| AuthorStore.AuthorRepository.Save | src/repository/AuthorRepositoryImpl.java:15-33 | appends the author under the generated key; the author's id is back-filled with that key |
| AuthorStore.AuthorRepository.Update | src/repository/AuthorRepositoryImpl.java:73-87 | a full replace of the row with the author's id |
| AuthorStore.AuthorRepository.DeleteById | src/repository/AuthorRepositoryImpl.java:90-105 | fails with "Cannot delete author: books reference this author" exactly when a book references the author; otherwise it deletes |
| BookStore.MapRowDispatch | src/repository/BookRepositoryImpl.java:273-298 | a row maps to a book exactly when tagged "EBOOK" or "PRINTED"; the tag picks the variant; type and author are carried over |
| BookStore.LoadAuthor | src/repository/BookRepositoryImpl.java:276 | the author is resolved by the row's author id; it is null exactly when no author has that id |
| BookStore.MapRowIgnoresAvailable | src/repository/BookRepositoryImpl.java:273-298 | the stored `available` column does not affect the mapping; every mapped book is available |
| BookStore.SaveThenLoad | src/repository/BookRepositoryImpl.java:33-83 | a saved e-book or printed book loads back with the same variant, tag, title, year, isbn and variant fields |
| BookStore.SaveThenLoadFresh | src/repository/BookRepositoryImpl.java:33-83 | a freshly constructed book with a stored author loads back equal, apart from its new id |
| BookStore.BorrowedComesBackAvailable | src/repository/BookRepositoryImpl.java:47 | a borrowed book comes back available after a save and a load |
| BookStore.MapRowsAppend | src/repository/BookRepositoryImpl.java:113-118 | the result-set loop keeps row order |
| BookStore.MapRowsMember | src/repository/BookRepositoryImpl.java:113-118 | a book is in the result exactly when some row maps to it |
| BookStore.MapRowsKeepsWellTagged | src/repository/BookRepositoryImpl.java:113-118 | when every row is well tagged, none is dropped |
| BookStore.MapRowsAvailable | src/repository/BookRepositoryImpl.java:273-298 | every book in a list query is available |
| BookStore.FindByTypeVariant | src/repository/BookRepositoryImpl.java:251-271 | books found by type carry that type; an e-book query gives e-books only; an unknown type gives nothing |
| BookStore.FindByAuthorIdAuthor | src/repository/BookRepositoryImpl.java:228-248 | each book found by author id has that stored author |
| BookStore.BookById | src/repository/BookRepositoryImpl.java:86-102 | a found book has the id asked for; a well-tagged stored row is always found |
| BookStore.BookByIsbn | src/repository/BookRepositoryImpl.java:209-225 | a found book has the ISBN asked for; a null ISBN finds nothing |
| BookStore.BookRepository.constructor | src/repository/BookRepositoryImpl.java:20-22 | the book repository shares the author repository's store |
| BookStore.BookRepository.CollectMapped | src/repository/BookRepositoryImpl.java:113-118 | the loop over result rows yields `MapRows` of those rows |
| BookStore.BookRepository.FindAll | src/repository/BookRepositoryImpl.java:105-123 | all rows mapped, unknown tags dropped, in table order |
| BookStore.BookRepository.FindById | src/repository/BookRepositoryImpl.java:86-102 | a book found has that id and its row is stored; a stored row with that id and a known tag is always found |
| BookStore.BookRepository.FindByIsbn | src/repository/BookRepositoryImpl.java:209-225 | a book found has that non-null ISBN and a stored row has it; with only known tags, a stored non-null ISBN is always found |
| BookStore.BookRepository.ExistsById | src/repository/BookRepositoryImpl.java:191-206 | the count is positive exactly when some row at some index has that id |
| BookStore.BookRepository.FindByAuthorId | src/repository/BookRepositoryImpl.java:228-248 | the rows with that author id, mapped in order |
| BookStore.BookRepository.FindByType | src/repository/BookRepositoryImpl.java:251-271 | the rows with that type, mapped in order |
| BookStore.BookRepository.MapResultSetToBook | src/repository/BookRepositoryImpl.java:273-298 | gives fresh objects exactly for a well-tagged row; their snapshot is the mapped value |
| BookStore.BookRepository.Save | src/repository/BookRepositoryImpl.java:25-83 | dispatches on variant; a book of neither variant is ignored; otherwise the row is inserted and the key back-filled; with no author row the insert fails and nothing changes; when the author is stored it passes and the table grows by exactly the book's row; the key counter advances by one exactly when a row is added |
| BookStore.BookRepository.Update | src/repository/BookRepositoryImpl.java:126-174 | dispatches on variant; a book of neither variant is ignored; otherwise the row is updated unless the new author is missing |
| BookStore.BookRepository.DeleteById | src/repository/BookRepositoryImpl.java:177-188 | removes exactly the book with the id |
| AuthorServices.ValidateAuthor | src/service/AuthorServiceImpl.java:21-29 | passes exactly when all three checks hold; otherwise gives invalid input with the first failing check's message |
| AuthorServices.ValidationOrder | src/service/AuthorServiceImpl.java:21-29 | the checks run in the order name, birth year (only < 0 fails), nationality |
| AuthorServices.BirthYearHasNoUpperBound | src/service/AuthorServiceImpl.java:24-26 | birth year 3000 passes the service although `setBirthYear` rejects it |
| AuthorServices.CreateDecisionMeaning | src/service/AuthorServiceImpl.java:20-37 | validation failures come first; duplicate exactly when a valid author's exact name is already stored; an accepted author keeps names unique |
| AuthorServices.UpdateDecision | src/service/AuthorServiceImpl.java:60-70 | not found comes before any validation; then only the name is checked |
| AuthorServices.ByNamePreorder | src/service/AuthorServiceImpl.java:56 | the name comparator is a total preorder |
| AuthorServices.AuthorService.constructor | src/service/AuthorServiceImpl.java:15-17 | the service wraps the given repository and, over a valid store, starts valid |
| AuthorServices.AuthorService.CreateAuthor | src/service/AuthorServiceImpl.java:20-37 | the outcome is `CreateDecision`; on success the author is appended once under the next key and that key is back-filled into the author; the key counter advances by one exactly on success; on failure nothing is written, the counter and the id are unchanged |
| AuthorServices.AuthorService.GetAuthorById | src/service/AuthorServiceImpl.java:40-46 | not found exactly when no author has that id |
| AuthorServices.AuthorService.GetAllAuthors | src/service/AuthorServiceImpl.java:49-51 | every stored author, in table order |
| AuthorServices.AuthorService.GetAuthorsSortedByName | src/service/AuthorServiceImpl.java:54-57 | a stable sort of all authors by case-insensitive name: a permutation, ordered, stable |
| AuthorServices.AuthorService.UpdateAuthor | src/service/AuthorServiceImpl.java:60-70 | the outcome is `UpdateDecision`; on success the row is fully replaced, otherwise nothing changes |
| AuthorServices.AuthorService.DeleteAuthor | src/service/AuthorServiceImpl.java:73-86 | not found without a delete when the id is absent; gives invalid input "Cannot delete author: books reference this author" exactly when books reference the author; otherwise it deletes |
| BookServices.ValidateBook | src/service/BookServiceImpl.java:95-117 | passes exactly when all rules hold; otherwise gives invalid input with the first failing rule's message |
| BookServices.ValidationOrder | src/service/BookServiceImpl.java:95-117 | the order is title, year (0..2026), author, then the variant's file size or weight |
| BookServices.EntityValidImpliesServiceValid | src/service/BookServiceImpl.java:95-117 | a book that passes the entity validator also passes the service validator |
| BookServices.PassedHasAuthor | src/service/BookServiceImpl.java:95-117 | a book that passes validation has an author and a non-blank title |
| BookServices.CreateDecisionMeaning | src/service/BookServiceImpl.java:26-40 | invalid input first; not found exactly when the author id is unknown; duplicate exactly when the ISBN is stored; never a database failure |
| BookServices.CreatePreservesUniqueIsbns | src/service/BookServiceImpl.java:34-39 | an accepted create keeps ISBNs unique |
| BookServices.UpdateCanDuplicateIsbn | src/service/BookServiceImpl.java:69-77 | an update can give two books the same ISBN, because it does not re-check uniqueness |
| BookServices.UpdateDecision | src/service/BookServiceImpl.java:69-77 | not found comes first, even for an invalid book; then validation |
| BookServices.SearchResult | src/service/BookServiceImpl.java:87-93 | keeps exactly the books whose lower-cased title contains the lower-cased keyword |
| BookServices.SearchEmptyKeyword | src/service/BookServiceImpl.java:87-93 | an empty keyword returns every book |
| BookServices.SearchKeepsOrder | src/service/BookServiceImpl.java:87-93 | the search keeps store order |
| BookServices.ByTitlePreorder | src/service/BookServiceImpl.java:59 | the title comparator is a total preorder |
| BookServices.ByYearPreorder | src/service/BookServiceImpl.java:65 | the year comparator is a total preorder |
| BookServices.MapRowsTitled | src/service/BookServiceImpl.java:57-60 | books loaded from titled rows all have a title |
| BookServices.BookService.constructor | src/service/BookServiceImpl.java:20-23 | the service wraps the given repositories and, over one valid store holding only service-written rows, starts valid |
| BookServices.BookService.CreateBook | src/service/BookServiceImpl.java:26-40 | the outcome is `CreateDecision`; on success an e-book or printed book is inserted as one row under the next key, which is back-filled into the book, while a book of neither variant is accepted and nothing is written; the key counter advances by one exactly when a row is added; on failure nothing is written, the counter and the id are unchanged |
| BookServices.BookService.GetBookById | src/service/BookServiceImpl.java:43-49 | found exactly when the repository has the id; otherwise "Book with ID … not found" |
| BookServices.BookService.GetAllBooks | src/service/BookServiceImpl.java:52-54 | every stored book, in store order |
| BookServices.BookService.GetBooksSortedByTitle | src/service/BookServiceImpl.java:57-60 | a stable sort of all books by case-insensitive title: a permutation, ordered, and books with equal titles keep store order |
| BookServices.BookService.GetBooksSortedByYear | src/service/BookServiceImpl.java:63-66 | a stable sort of all books by year: a permutation, ordered by year, stable |
| BookServices.BookService.UpdateBook | src/service/BookServiceImpl.java:69-77 | the outcome is `UpdateDecision`, then the repository update; nothing changes on failure |
| BookServices.BookService.DeleteBook | src/service/BookServiceImpl.java:80-85 | not found and no change when absent; otherwise removes exactly that id |
| BookServices.BookService.SearchByTitle | src/service/BookServiceImpl.java:88-93 | the search applied to all books; an empty keyword returns them all |

## Left out

- **JDBC.** The SQL text, `PreparedStatement`, connections and `DatabaseConnection` are not modelled. The store holds the two tables as sequences in insertion order, and that order stands for the order the database returns rows in.
- **Connection and driver failures.** These are not modelled: the only database failure is the foreign-key violation, raised when an author is deleted while books reference them, or when a book is inserted or updated to a missing author. Every other repository failure wraps a `DatabaseOperationException` in a `RuntimeException` that no service catches.
- **The backend's error text.** Only the wording "violates foreign key constraint" is modelled. `AuthorStore.DeleteFailure` states the message sniffing for any text.
- **Generated keys.** A key is the next value of a counter and is always positive. A sequence value used up by a failed insert is not modelled.
- **Integers and doubles.** Java `int` is modelled as an unbounded integer; the core does no arithmetic on ints that could wrap. `double` is `real`, and nothing is claimed about rounding.
- **Case folding.** `toLowerCase` and `compareToIgnoreCase` fold ASCII letters only. There is no full Unicode case mapping.
- BookServices.BookService: every method requires `Valid()`, which includes `ServiceRows`: every book row is tagged `EBOOK` or `PRINTED` and has a title. So the service contracts assume a table written only through the service. The source works on any table content. A row with another tag is dropped by `findAll`, and `getBookById` reports it not found although `existsById` counts it. An untitled row makes `getBooksSortedByTitle` and `searchByTitle` throw a `NullPointerException`.
- BookServices.SearchResult: a book without a title is left out, where the source throws a `NullPointerException`. A null keyword, for which the source also throws, is not modelled, because the keyword is a `string`.
- BookServices.BookService.GetBooksSortedByTitle: the comparator reads a null title as "", where the source throws a `NullPointerException` on a stored book without a title. The service invariant `ServiceRows` keeps such rows out.
- AuthorServices.AuthorService.GetAuthorsSortedByName: a null name sorts as "", where the source would throw a `NullPointerException`. Every write path through the service validates the name, so the case arises only for rows written around it.
- BookStore.BookRepository.Save: requires a non-null author for a variant, where the source would throw a `NullPointerException`. The service validates the author before calling it.
- BookStore.BookRepository.Update: requires a non-null author for a variant, for the same reason as `Save`.
- **Console output.** The "already borrowed" message in `borrow`, the logging of `validateAndLog`, `displayInfo`, `bio`, `toString` and `sortAndPrint` are left out.
- **Not modelled at all.** `ReflectionUtils`, `LibraryController` and `Main` are not part of this model. Neither are the interfaces `DigitalAccess`, `InvalidInputException` and `ResourceNotFoundException`; only their use is modelled.
- **The author list query.** `AuthorStore.AuthorRepository.FindAll` returns the table as a value; its result-set loop copies every row and drops none.
- **Values instead of objects.** Repository reads yield `BookValue` and `AuthorData` values, not new objects; only `MapResultSetToBook` builds the objects. No query result aliases a stored row.
- **Copies.** `sortBy` and `sortByDescending` work on a copy of the caller's list. In the model a `seq` is an immutable value, so the caller's list cannot change.
- **ISBN uniqueness.** It is not a database constraint. Only `createBook` checks it, and `BookServices.UpdateCanDuplicateIsbn` shows that an update can break it.
- **The load round trip.** `available` is written on save but never read back, so a loaded book is always available. The model follows the code in this (`BookStore.BorrowedComesBackAvailable`), although a save/load round trip might be expected to keep `available`.
- **Mapped late fees.** A mapped book carries its variant's default late fee, because the row has no late-fee column.
