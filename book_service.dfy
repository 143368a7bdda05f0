/** The book service (`BookServiceImpl`): the business rules checked before
    a book is written, and the sorted and filtered views of the catalogue. */
module BookServices {
  import opened Common
  import Seqs
  import Text
  import Validatable
  import Tables
  import Sorting
  import EBooks
  import PrintedBooks
  import AuthorStore
  import BookStore
  import opened BookVariants

  /** The rules of `validateBook`, in their order, given the outcome of the
      shared checks; the last rule depends on the variant. */
  function BookRules(titleOk: bool, yearOk: bool, authorOk: bool, variant: Variant): seq<Validatable.Rule> {
    [ Validatable.Rule(titleOk, "Title cannot be empty"),
      Validatable.Rule(yearOk, "Invalid year"),
      Validatable.Rule(authorOk, "Author cannot be null") ] +
    match variant
    case EBookPart(fileSize, _, _, _) => [Validatable.Rule(fileSize >= 0.0, "File size cannot be negative")]
    case PrintedPart(_, weight, _, _) => [Validatable.Rule(weight >= 0.0, "Weight cannot be negative")]
    case OtherPart => []
  }

  /** The rules checked for the book `v`. */
  function CheckedRules(v: BookValue): seq<Validatable.Rule> {
    BookRules(Validatable.IsNotEmpty(v.title), Validatable.InSetterYearRange(v.year), v.author.Some?, v.variant)
  }

  /** `validateBook`: the first failing rule, as an invalid-input error. */
  function ValidateBook(v: BookValue): (r: Outcome<Error>)
    ensures r.Pass? <==> Validatable.AllHold(CheckedRules(v))
    ensures r.Fail? ==> (r.error.InvalidInput? &&
      exists k :: Validatable.FirstFailingAt(CheckedRules(v), k) && r.error.message == CheckedRules(v)[k].message)
  {
    match Validatable.FirstFailure(CheckedRules(v))
    case None => Pass
    case Some(message) => Fail(InvalidInput(message))
  }

  /** The order of `validateBook`: title, then the year range 0 to 2026, then
      the author, then the variant's number; unlike the entities' own
      validators, the year comes before the author. */
  lemma ValidationOrder(titleOk: bool, yearOk: bool, authorOk: bool, variant: Variant)
    ensures Validatable.FirstFailure(BookRules(titleOk, yearOk, authorOk, variant)) ==
      if !titleOk then Some("Title cannot be empty")
      else if !yearOk then Some("Invalid year")
      else if !authorOk then Some("Author cannot be null")
      else match variant
        case EBookPart(fileSize, _, _, _) => if fileSize < 0.0 then Some("File size cannot be negative") else None
        case PrintedPart(_, weight, _, _) => if weight < 0.0 then Some("Weight cannot be negative") else None
        case OtherPart => None
  {
    var rules := BookRules(titleOk, yearOk, authorOk, variant);
    if !titleOk {
      Validatable.FirstFailureOfFirstFailing(rules, 0);
    } else if !yearOk {
      Validatable.FirstFailureOfFirstFailing(rules, 1);
    } else if !authorOk {
      Validatable.FirstFailureOfFirstFailing(rules, 2);
    } else if (variant.EBookPart? && variant.fileSize < 0.0) || (variant.PrintedPart? && variant.weight < 0.0) {
      Validatable.FirstFailureOfFirstFailing(rules, 3);
    } else {
      assert Validatable.AllHold(rules);
    }
  }

  /** A book its own `validate()` accepts passes `validateBook`: the entity's
      checks are at least as strict (its year check rejects 0). */
  lemma EntityValidImpliesServiceValid(v: BookValue)
    requires Validatable.IsNotEmpty(v.title) && v.author.Some? && Validatable.IsValidYear(v.year)
    requires v.variant.EBookPart? ==> v.variant.fileSize >= 0.0
    requires v.variant.PrintedPart? ==> v.variant.weight >= 0.0
    ensures ValidateBook(v) == Pass
  {
    ValidationOrder(Validatable.IsNotEmpty(v.title), Validatable.InSetterYearRange(v.year), v.author.Some?, v.variant);
  }

  /** A book that passes validation has an author and a title. */
  lemma PassedHasAuthor(v: BookValue)
    requires ValidateBook(v).Pass?
    ensures v.author.Some? && Validatable.IsNotEmpty(v.title)
  {
    ValidationOrder(Validatable.IsNotEmpty(v.title), Validatable.InSetterYearRange(v.year), v.author.Some?, v.variant);
  }

  function BookNotFound(id: int): Error {
    NotFound("Book with ID " + Text.IntToString(id) + " not found")
  }

  /** The checks of `createBook`, in their order: validation, then the
      author's existence, then ISBN uniqueness through `findByIsbn`. */
  function CreateDecision(v: BookValue, authors: seq<Tables.AuthorRow>, books: seq<Tables.BookRow>): Outcome<Error> {
    if ValidateBook(v).Fail? then ValidateBook(v)
    else if !Tables.HasAuthor(authors, BookStore.AuthorIdOf(v)) then
      Fail(NotFound("Author with ID " + Text.IntToString(BookStore.AuthorIdOf(v)) + " not found"))
    else if BookStore.BookByIsbn(books, authors, v.isbn).Some? then
      Fail(DuplicateResource("Book with ISBN '" + Text.Show(v.isbn) + "' already exists"))
    else Pass
  }

  /** What each outcome of `createBook` means: an invalid book is reported as
      such; a valid one names a missing author, or an ISBN already in the
      store, or is accepted; the store itself is never the reason. */
  lemma CreateDecisionMeaning(v: BookValue, authors: seq<Tables.AuthorRow>, books: seq<Tables.BookRow>)
    requires forall row :: row in books ==> BookStore.WellTagged(row)
    ensures var d := CreateDecision(v, authors, books);
      && (ValidateBook(v).Fail? ==> d == ValidateBook(v))
      && (d.Fail? && d.error.NotFound? <==> ValidateBook(v).Pass? && !Tables.HasAuthor(authors, BookStore.AuthorIdOf(v)))
      && (d.Fail? && d.error.DuplicateResource? <==>
            ValidateBook(v).Pass? && Tables.HasAuthor(authors, BookStore.AuthorIdOf(v)) &&
            v.isbn.Some? && exists row :: row in books && row.isbn == v.isbn)
      && !(d.Fail? && d.error.DbFailure?)
      && (d.Pass? ==> v.author.Some? && Validatable.IsNotEmpty(v.title))
  {
    if ValidateBook(v).Pass? && v.isbn.Some? && (exists row :: row in books && row.isbn == v.isbn) {
      assert BookStore.BookByIsbn(books, authors, v.isbn).Some?;
    }
    if ValidateBook(v).Pass? {
      ValidationOrder(Validatable.IsNotEmpty(v.title), Validatable.InSetterYearRange(v.year), v.author.Some?, v.variant);
    }
  }

  /** No two rows share a non-null ISBN. */
  predicate UniqueIsbns(books: seq<Tables.BookRow>) {
    Seqs.Pairwise(books, (a: Tables.BookRow, b: Tables.BookRow) => a.isbn.None? || a.isbn != b.isbn)
  }

  /** An accepted `createBook` keeps ISBNs unique. */
  lemma CreatePreservesUniqueIsbns(v: BookValue, authors: seq<Tables.AuthorRow>, books: seq<Tables.BookRow>, key: int)
    requires forall row :: row in books ==> BookStore.WellTagged(row)
    requires UniqueIsbns(books)
    requires CreateDecision(v, authors, books) == Pass
    ensures UniqueIsbns(books + BookStore.Inserted(v, key))
  {
    var after := books + BookStore.Inserted(v, key);
    if BookStore.Inserted(v, key) != [] {
      forall i | 0 <= i < |books| ensures books[i].isbn.None? || books[i].isbn != after[|books|].isbn {
        assert books[i] in books;
      }
    }
  }

  /** `updateBook` does not re-check ISBNs: two books can end up sharing one. */
  lemma UpdateCanDuplicateIsbn()
    ensures var c := Tables.Columns(Some("B"), Some("111"), 1, 2000, EBooks.Tag, Tables.DigitalColumns(Some("u"), 1.0), true);
      var books := [Tables.NewRow(1, c), Tables.NewRow(2, c.(isbn := Some("222")))];
      UniqueIsbns(books) && !UniqueIsbns(Tables.UpdateBookRows(books, 2, c))
  {
    var c := Tables.Columns(Some("B"), Some("111"), 1, 2000, EBooks.Tag, Tables.DigitalColumns(Some("u"), 1.0), true);
    var books := [Tables.NewRow(1, c), Tables.NewRow(2, c.(isbn := Some("222")))];
    var after := Tables.UpdateBookRows(books, 2, c);
    assert after[0].isbn == after[1].isbn == Some("111");
  }

  /** The checks of `updateBook` before the write: existence first, so a
      missing id is reported even for an invalid book; then validation. */
  function UpdateDecision(v: BookValue, books: seq<Tables.BookRow>): (d: Outcome<Error>)
    ensures !Tables.HasBook(books, v.id) ==> d == Fail(BookNotFound(v.id))
    ensures Tables.HasBook(books, v.id) ==> d == ValidateBook(v)
  {
    if !Tables.HasBook(books, v.id) then Fail(BookNotFound(v.id)) else ValidateBook(v)
  }

  /** `searchByTitle`'s filter: the lowercased title contains the lowercased
      keyword. A book without a title is not kept (the source would fail on it). */
  predicate TitleMatches(b: BookValue, keyword: string) {
    b.title.Some? && Text.Contains(Text.ToLower(b.title.value), Text.ToLower(keyword))
  }

  /** The books whose title matches, in store order: a book is kept exactly
      when it is in the store and its lowercased title contains the
      lowercased keyword (`Text.ContainsIff` says what containing means). */
  function SearchResult(books: seq<BookValue>, keyword: string): (r: seq<BookValue>)
    ensures forall b :: b in r ==> b in books && TitleMatches(b, keyword)
    ensures forall b :: b in books && TitleMatches(b, keyword) ==> b in r
  {
    Seqs.Filter(books, (b: BookValue) => TitleMatches(b, keyword))
  }

  /** An empty keyword matches every book that has a title. */
  lemma SearchEmptyKeyword(books: seq<BookValue>)
    requires forall b :: b in books ==> b.title.Some?
    ensures SearchResult(books, "") == books
  {
    forall b | b in books ensures TitleMatches(b, "") {
      Text.ContainsEmpty(Text.ToLower(b.title.value));
    }
    Seqs.FilterAll(books, (b: BookValue) => TitleMatches(b, ""));
  }

  /** The search keeps store order: it distributes over concatenation. */
  lemma SearchKeepsOrder(books: seq<BookValue>, more: seq<BookValue>, keyword: string)
    ensures SearchResult(books + more, keyword) == SearchResult(books, keyword) + SearchResult(more, keyword)
  {
    Seqs.FilterAppend(books, more, (b: BookValue) => TitleMatches(b, keyword));
  }

  /** The title a comparator sees. */
  function TitleOf(b: BookValue): string {
    if b.title.Some? then b.title.value else ""
  }

  /** The comparator of `getBooksSortedByTitle`. */
  function ByTitle(): (BookValue, BookValue) -> int {
    (a: BookValue, b: BookValue) => Text.CompareIgnoreCase(TitleOf(a), TitleOf(b))
  }

  /** The comparator of `getBooksSortedByYear`. */
  function ByYear(): (BookValue, BookValue) -> int {
    (a: BookValue, b: BookValue) => Sorting.IntegerCompare(a.year, b.year)
  }

  lemma ByTitlePreorder()
    ensures Sorting.TotalPreorder(ByTitle())
  {
    forall a, b ensures ByTitle()(a, b) <= 0 || ByTitle()(b, a) <= 0 {
      Text.CompareIgnoreCaseAntisymmetric(TitleOf(a), TitleOf(b));
    }
    forall a, b, c | ByTitle()(a, b) <= 0 && ByTitle()(b, c) <= 0 ensures ByTitle()(a, c) <= 0 {
      Text.CompareIgnoreCaseTransitive(TitleOf(a), TitleOf(b), TitleOf(c));
    }
  }

  lemma ByYearPreorder()
    ensures Sorting.TotalPreorder(ByYear())
  {
  }

  /** The rows the service writes are tagged with a variant and titled. */
  predicate ServiceRows(books: seq<Tables.BookRow>) {
    forall row :: row in books ==> BookStore.WellTagged(row) && row.title.Some?
  }

  /** A titled book's row is one the service writes. */
  lemma ServiceRowsInserted(books: seq<Tables.BookRow>, v: BookValue, key: int)
    requires ServiceRows(books) && v.title.Some?
    ensures ServiceRows(books + BookStore.Inserted(v, key))
  {
  }

  /** An update with a title keeps the rows the kind the service writes: the
      tag is not rewritten and the title is replaced by a present one. */
  lemma ServiceRowsUpdated(books: seq<Tables.BookRow>, id: int, c: Tables.Columns)
    requires ServiceRows(books) && c.title.Some?
    ensures ServiceRows(Tables.UpdateBookRows(books, id, c))
  {
    var r := Tables.UpdateBookRows(books, id, c);
    forall row | row in r ensures BookStore.WellTagged(row) && row.title.Some? {
      var i :| 0 <= i < |r| && r[i] == row;
      assert books[i] in books;
    }
  }

  /** Loaded rows keep their titles. */
  lemma {:induction false} MapRowsTitled(rows: seq<Tables.BookRow>, authors: seq<Tables.AuthorRow>)
    requires ServiceRows(rows)
    ensures forall b :: b in BookStore.MapRows(rows, authors) ==> b.title.Some?
  {
    if rows != [] {
      MapRowsTitled(rows[..|rows| - 1], authors);
      assert rows[|rows| - 1] in rows;
    }
  }

  class BookService {
    const bookRepository: BookStore.BookRepository
    const authorRepository: AuthorStore.AuthorRepository

    constructor (bookRepository: BookStore.BookRepository, authorRepository: AuthorStore.AuthorRepository)
      requires bookRepository.Valid() && authorRepository.db == bookRepository.db
      requires ServiceRows(bookRepository.db.books)
      ensures this.bookRepository == bookRepository && this.authorRepository == authorRepository
      ensures Valid()
    {
      this.bookRepository := bookRepository;
      this.authorRepository := authorRepository;
    }

    /** Both repositories work on one valid database, whose book rows are
        the kind the service writes. */
    predicate Valid()
      reads bookRepository.db
    {
      && bookRepository.Valid()
      && authorRepository.db == bookRepository.db
      && ServiceRows(bookRepository.db.books)
    }

    /** `createBook`: the checks of `CreateDecision`; the book is saved, once,
        only when they all pass. */
    method CreateBook(r: BookRef) returns (res: Outcome<Error>)
      requires Valid()
      modifies bookRepository.db`books, bookRepository.db`nextBookId, Base(r)`id
      ensures Valid()
      ensures res == CreateDecision(old(Snapshot(r)), old(bookRepository.db.authors), old(bookRepository.db.books))
      ensures bookRepository.db.books ==
        if res.Pass? then old(bookRepository.db.books) + BookStore.Inserted(old(Snapshot(r)), old(bookRepository.db.nextBookId))
        else old(bookRepository.db.books)
      ensures res.Fail? ==> Base(r).id == old(Base(r).id)
      ensures res.Pass? && !r.OtherRef? ==> Base(r).id == old(bookRepository.db.nextBookId)
      ensures bookRepository.db.nextBookId ==
        if res.Pass? && !r.OtherRef? then old(bookRepository.db.nextBookId) + 1 else old(bookRepository.db.nextBookId)
    {
      var v := Snapshot(r);
      var check := ValidateBook(v);
      if check.Fail? {
        return check;
      }
      ghost var books0, key0 := bookRepository.db.books, bookRepository.db.nextBookId;
      PassedHasAuthor(v);
      var authorId := Base(r).author.id;
      assert authorId == BookStore.AuthorIdOf(v);
      if !authorRepository.ExistsById(authorId) {
        return Fail(NotFound("Author with ID " + Text.IntToString(authorId) + " not found"));
      }
      var existing := bookRepository.FindByIsbn(Base(r).isbn);
      if existing.Some? {
        return Fail(DuplicateResource("Book with ISBN '" + Text.Show(Base(r).isbn) + "' already exists"));
      }
      res := bookRepository.Save(r);
      ServiceRowsInserted(books0, v, key0);
    }

    /** `getBookById`. */
    function GetBookById(id: int): (r: Result<BookValue, Error>)
      reads bookRepository.db
      ensures r.Ok? ==> r.value.id == id && Tables.HasBook(bookRepository.db.books, id)
      ensures Valid() ==> (r.Ok? <==> bookRepository.ExistsById(id))
      ensures r.Err? ==> r.error == BookNotFound(id)
    {
      match bookRepository.FindById(id)
      case None => Err(BookNotFound(id))
      case Some(b) => Ok(b)
    }

    /** `getAllBooks`. */
    method GetAllBooks() returns (books: seq<BookValue>)
      requires Valid()
      ensures books == BookStore.MapRows(bookRepository.db.books, bookRepository.db.authors)
      ensures |books| == |bookRepository.db.books|
    {
      BookStore.MapRowsKeepsWellTagged(bookRepository.db.books, bookRepository.db.authors);
      books := bookRepository.FindAll();
    }

    /** `getBooksSortedByTitle`: a stable sort of all books by title,
        ignoring case. */
    method GetBooksSortedByTitle() returns (sorted: seq<BookValue>)
      requires Valid()
      ensures sorted == Sorting.StableSorted(BookStore.MapRows(bookRepository.db.books, bookRepository.db.authors), ByTitle())
      ensures multiset(sorted) == multiset(BookStore.MapRows(bookRepository.db.books, bookRepository.db.authors))
      ensures forall i, j :: 0 <= i < j < |sorted| ==> Text.CompareIgnoreCase(TitleOf(sorted[i]), TitleOf(sorted[j])) <= 0
      ensures Sorting.SameEquivalents(sorted, BookStore.MapRows(bookRepository.db.books, bookRepository.db.authors), ByTitle())
    {
      var books := bookRepository.FindAll();
      ByTitlePreorder();
      sorted := Sorting.SortBy(books, ByTitle());
    }

    /** `getBooksSortedByYear`: a stable sort of all books by year, so books
        of one year stay in store order. */
    method GetBooksSortedByYear() returns (sorted: seq<BookValue>)
      requires Valid()
      ensures sorted == Sorting.StableSorted(BookStore.MapRows(bookRepository.db.books, bookRepository.db.authors), ByYear())
      ensures multiset(sorted) == multiset(BookStore.MapRows(bookRepository.db.books, bookRepository.db.authors))
      ensures forall i, j :: 0 <= i < j < |sorted| ==> sorted[i].year <= sorted[j].year
      ensures Sorting.SameEquivalents(sorted, BookStore.MapRows(bookRepository.db.books, bookRepository.db.authors), ByYear())
    {
      var books := bookRepository.FindAll();
      ByYearPreorder();
      sorted := Sorting.SortBy(books, ByYear());
    }

    /** `updateBook`: the checks of `UpdateDecision`, then the repository's
        update, whose foreign-key failure is passed on. */
    method UpdateBook(r: BookRef) returns (res: Outcome<Error>)
      requires Valid()
      modifies bookRepository.db`books
      ensures Valid()
      ensures var v := Snapshot(r);
        if UpdateDecision(v, old(bookRepository.db.books)).Fail? then
          res == UpdateDecision(v, old(bookRepository.db.books)) && bookRepository.db.books == old(bookRepository.db.books)
        else
          match BookStore.ColumnsOf(v, BookStore.AuthorIdOf(v))
          case None => res == Pass && bookRepository.db.books == old(bookRepository.db.books)
          case Some(c) =>
            if Tables.HasAuthor(bookRepository.db.authors, c.authorId) then
              res == Pass && bookRepository.db.books == Tables.UpdateBookRows(old(bookRepository.db.books), v.id, c)
            else
              res == Fail(BookStore.WriteFailure(v, "update")) && bookRepository.db.books == old(bookRepository.db.books)
    {
      var v := Snapshot(r);
      if !bookRepository.ExistsById(Base(r).id) {
        return Fail(BookNotFound(Base(r).id));
      }
      var check := ValidateBook(v);
      if check.Fail? {
        return check;
      }
      PassedHasAuthor(v);
      match BookStore.ColumnsOf(v, BookStore.AuthorIdOf(v)) {
        case Some(c) => ServiceRowsUpdated(bookRepository.db.books, v.id, c);
        case None =>
      }
      res := bookRepository.Update(r);
    }

    /** `deleteBook`: a missing id is reported and nothing changes; otherwise
        exactly the rows with that id go. */
    method DeleteBook(id: int) returns (res: Outcome<Error>)
      requires Valid()
      modifies bookRepository.db`books
      ensures Valid()
      ensures res == if Tables.HasBook(old(bookRepository.db.books), id) then Pass else Fail(BookNotFound(id))
      ensures bookRepository.db.books ==
        if res.Pass? then Tables.DeleteBookRows(old(bookRepository.db.books), id) else old(bookRepository.db.books)
      ensures !Tables.HasBook(bookRepository.db.books, id)
    {
      if !bookRepository.ExistsById(id) {
        return Fail(BookNotFound(id));
      }
      bookRepository.DeleteById(id);
      res := Pass;
    }

    /** `searchByTitle`: the books whose title contains the keyword ignoring
        case, in store order; an empty keyword returns every book. */
    method SearchByTitle(keyword: string) returns (found: seq<BookValue>)
      requires Valid()
      ensures found == SearchResult(BookStore.MapRows(bookRepository.db.books, bookRepository.db.authors), keyword)
      ensures keyword == "" ==> found == BookStore.MapRows(bookRepository.db.books, bookRepository.db.authors)
    {
      var all := bookRepository.FindAll();
      MapRowsTitled(bookRepository.db.books, bookRepository.db.authors);
      if keyword == "" {
        SearchEmptyKeyword(all);
      }
      found := SearchResult(all, keyword);
    }
  }
}
