/** The book store (`BookRepositoryImpl`): writing a book dispatches on its
    variant, and reading a row dispatches on the `book_type` discriminator and
    resolves the author through the author store. */
module BookStore {
  import opened Common
  import Seqs
  import Authors
  import Books
  import EBooks
  import PrintedBooks
  import Tables
  import AuthorStore
  import opened BookVariants

  /** `ResultSet.getDouble` reads SQL NULL as 0. */
  function RealOrZero(x: Option<real>): real {
    if x.Some? then x.value else 0.0
  }

  /** The row is tagged with one of the two variants. */
  predicate WellTagged(row: Tables.BookRow) {
    row.bookType == Some(EBooks.Tag) || row.bookType == Some(PrintedBooks.Tag)
  }

  /** `mapResultSetToBook`: the book a row stands for, built by the variant's
      constructor from the row's columns and the author `author` found for
      its `author_id`; a row with any other tag is no book. The constructors
      set availability, late fee and tag themselves. */
  function MapRow(row: Tables.BookRow, author: Option<Authors.AuthorData>): Option<BookValue> {
    if row.bookType == Some(EBooks.Tag) then
      Some(BookValue(row.id, row.title, author, row.publishYear, row.isbn, Some(EBooks.Tag),
                     EBookPart(RealOrZero(row.fileSize), row.downloadUrl, true, EBooks.DefaultLateFee)))
    else if row.bookType == Some(PrintedBooks.Tag) then
      Some(BookValue(row.id, row.title, author, row.publishYear, row.isbn, Some(PrintedBooks.Tag),
                     PrintedPart(row.shelfLocation, RealOrZero(row.weight), true, PrintedBooks.DefaultLateFee)))
    else None
  }

  /** The row mapped with its author looked up in `authors`. */
  function Load(row: Tables.BookRow, authors: seq<Tables.AuthorRow>): Option<BookValue> {
    MapRow(row, AuthorStore.FindAuthor(authors, row.authorId))
  }

  /** The author of a loaded book is the one whose id the row names, and it
      is null exactly when no author has that id. */
  lemma LoadAuthor(row: Tables.BookRow, authors: seq<Tables.AuthorRow>)
    requires WellTagged(row)
    ensures Load(row, authors).Some?
    ensures Load(row, authors).value.author.None? <==> !Tables.HasAuthor(authors, row.authorId)
    ensures Load(row, authors).value.author.Some? ==>
      Load(row, authors).value.author.value in authors && Load(row, authors).value.author.value.id == row.authorId
  {
    MapRowDispatch(row, AuthorStore.FindAuthor(authors, row.authorId));
  }

  /** The loop of `findAll`, `findByAuthorId` and `findByType`: map every row
      and keep the books, in row order. */
  function MapRows(rows: seq<Tables.BookRow>, authors: seq<Tables.AuthorRow>): seq<BookValue> {
    if rows == [] then []
    else
      MapRows(rows[..|rows| - 1], authors) +
      match Load(rows[|rows| - 1], authors)
      case Some(b) => [b]
      case None => []
  }

  /** The columns `save` and `update` bind for a book of either variant; a
      book of neither variant writes nothing. */
  function ColumnsOf(v: BookValue, authorId: int): Option<Tables.Columns> {
    match v.variant
    case EBookPart(fileSize, url, available, _) =>
      Some(Tables.Columns(v.title, v.isbn, authorId, v.year, EBooks.Tag, Tables.DigitalColumns(url, fileSize), available))
    case PrintedPart(location, weight, available, _) =>
      Some(Tables.Columns(v.title, v.isbn, authorId, v.year, PrintedBooks.Tag, Tables.PhysicalColumns(location, weight), available))
    case OtherPart => None
  }

  /** The id of the book's author, which `save` and `update` dereference. */
  function AuthorIdOf(v: BookValue): int {
    if v.author.Some? then v.author.value.id else 0
  }

  /** The context message of a failed write of the book's variant. */
  function WriteFailure(v: BookValue, verb: string): Error {
    DbFailure("Failed to " + verb + " " + if v.variant.EBookPart? then "EBook" else "PrintedBook")
  }

  /** The rows `save` adds for the book under key `key`. */
  function Inserted(v: BookValue, key: int): seq<Tables.BookRow> {
    match ColumnsOf(v, AuthorIdOf(v))
    case None => []
    case Some(c) => [Tables.NewRow(key, c)]
  }

  /** How a saved book reads back: with the generated key, the stored author,
      the tag written by `save`, available, and the variant's default fee. */
  function Reloaded(v: BookValue, key: int, author: Option<Authors.AuthorData>): BookValue {
    v.(id := key, author := author,
       bookType := Some(if v.variant.EBookPart? then EBooks.Tag else PrintedBooks.Tag),
       variant := match v.variant
                  case EBookPart(f, u, _, _) => EBookPart(f, u, true, EBooks.DefaultLateFee)
                  case PrintedPart(l, w, _, _) => PrintedPart(l, w, true, PrintedBooks.DefaultLateFee)
                  case OtherPart => OtherPart)
  }

  /** Reading dispatches on the tag: exactly the two variant tags give a
      book, of the variant the tag names, carrying the row's shared columns. */
  lemma MapRowDispatch(row: Tables.BookRow, author: Option<Authors.AuthorData>)
    ensures MapRow(row, author).Some? <==> WellTagged(row)
    ensures MapRow(row, author).Some? ==>
      && (MapRow(row, author).value.variant.EBookPart? <==> row.bookType == Some(EBooks.Tag))
      && (MapRow(row, author).value.variant.PrintedPart? <==> row.bookType == Some(PrintedBooks.Tag))
      && MapRow(row, author).value.bookType == row.bookType
      && MapRow(row, author).value.author == author
  {
  }

  /** The stored `available` column is never read: a book reads back
      available whatever the column says. */
  lemma MapRowIgnoresAvailable(row: Tables.BookRow, author: Option<Authors.AuthorData>, stored: bool)
    ensures MapRow(row.(available := stored), author) == MapRow(row, author)
    ensures MapRow(row, author).Some? ==> Available(MapRow(row, author).value) == Some(true)
  {
  }

  /** Saving then loading: the variant survives through the tag, and the book
      comes back with the generated key and its stored author, available and
      with the default fee. */
  lemma SaveThenLoad(v: BookValue, key: int, authors: seq<Tables.AuthorRow>)
    requires !v.variant.OtherPart?
    ensures ColumnsOf(v, AuthorIdOf(v)).Some?
    ensures Load(Tables.NewRow(key, ColumnsOf(v, AuthorIdOf(v)).value), authors) ==
            Some(Reloaded(v, key, AuthorStore.FindAuthor(authors, AuthorIdOf(v))))
  {
  }

  /** A book that is still as its constructor left it, whose author is the
      stored row, reads back equal to itself apart from the key. */
  lemma SaveThenLoadFresh(v: BookValue, key: int, authors: seq<Tables.AuthorRow>)
    requires v.variant.EBookPart? ==> v.variant == EBookPart(v.variant.fileSize, v.variant.downloadUrl, true, EBooks.DefaultLateFee) && v.bookType == Some(EBooks.Tag)
    requires v.variant.PrintedPart? ==> v.variant == PrintedPart(v.variant.shelfLocation, v.variant.weight, true, PrintedBooks.DefaultLateFee) && v.bookType == Some(PrintedBooks.Tag)
    requires !v.variant.OtherPart? && v.author.Some? && v.author.value in authors
    requires Tables.DistinctAuthorIds(authors)
    ensures Load(Tables.NewRow(key, ColumnsOf(v, AuthorIdOf(v)).value), authors) == Some(v.(id := key))
  {
    SaveThenLoad(v, key, authors);
    var found := AuthorStore.FindAuthor(authors, AuthorIdOf(v));
    var i :| 0 <= i < |authors| && authors[i] == found.value;
    var j :| 0 <= j < |authors| && authors[j] == v.author.value;
    if i != j {
      assert false;
    }
  }

  /** A borrowed book comes back available after a save and a load. */
  lemma BorrowedComesBackAvailable(v: BookValue, key: int, authors: seq<Tables.AuthorRow>)
    requires Available(v) == Some(false)
    ensures Load(Tables.NewRow(key, ColumnsOf(v, AuthorIdOf(v)).value), authors).Some?
    ensures Available(Load(Tables.NewRow(key, ColumnsOf(v, AuthorIdOf(v)).value), authors).value) == Some(true)
  {
    SaveThenLoad(v, key, authors);
  }

  /** The row loop keeps row order: it distributes over concatenation. */
  lemma {:induction false} MapRowsAppend(xs: seq<Tables.BookRow>, ys: seq<Tables.BookRow>, authors: seq<Tables.AuthorRow>)
    ensures MapRows(xs + ys, authors) == MapRows(xs, authors) + MapRows(ys, authors)
    decreases |ys|
  {
    if ys == [] {
      assert xs + ys == xs;
    } else {
      assert (xs + ys)[..|xs + ys| - 1] == xs + ys[..|ys| - 1];
      MapRowsAppend(xs, ys[..|ys| - 1], authors);
    }
  }

  /** A book is in the result exactly when some row loads as it. */
  lemma {:induction false} MapRowsMember(rows: seq<Tables.BookRow>, authors: seq<Tables.AuthorRow>, b: BookValue)
    ensures b in MapRows(rows, authors) <==> exists row :: row in rows && Load(row, authors) == Some(b)
  {
    if rows != [] {
      var init, last := rows[..|rows| - 1], rows[|rows| - 1];
      MapRowsMember(init, authors, b);
      assert rows == init + [last];
      if b in MapRows(rows, authors) && b !in MapRows(init, authors) {
        assert Load(last, authors) == Some(b);
      }
    }
  }

  /** Only rows with another tag are dropped: well-tagged rows all come back. */
  lemma {:induction false} MapRowsKeepsWellTagged(rows: seq<Tables.BookRow>, authors: seq<Tables.AuthorRow>)
    requires forall row :: row in rows ==> WellTagged(row)
    ensures |MapRows(rows, authors)| == |rows|
  {
    if rows != [] {
      MapRowsKeepsWellTagged(rows[..|rows| - 1], authors);
      assert rows[|rows| - 1] in rows;
    }
  }

  /** Every listed book is available, whatever the stored column says. */
  lemma {:induction false} MapRowsAvailable(rows: seq<Tables.BookRow>, authors: seq<Tables.AuthorRow>)
    ensures forall b :: b in MapRows(rows, authors) ==> Available(b) == Some(true)
  {
    if rows != [] {
      MapRowsAvailable(rows[..|rows| - 1], authors);
    }
  }

  /** The rows a `WHERE author_id = ?` query returns. */
  function RowsByAuthor(books: seq<Tables.BookRow>, authorId: int): seq<Tables.BookRow> {
    Seqs.Filter(books, (row: Tables.BookRow) => row.authorId == authorId)
  }

  /** The rows a `WHERE book_type = ?` query returns; NULL matches nothing. */
  function RowsByType(books: seq<Tables.BookRow>, bookType: Option<string>): seq<Tables.BookRow> {
    Seqs.Filter(books, (row: Tables.BookRow) => bookType.Some? && row.bookType == bookType)
  }

  /** `findByType` returns books of the variant the tag names, and nothing
      for any other tag. */
  lemma FindByTypeVariant(books: seq<Tables.BookRow>, authors: seq<Tables.AuthorRow>, bookType: Option<string>)
    ensures bookType != Some(EBooks.Tag) && bookType != Some(PrintedBooks.Tag) ==> MapRows(RowsByType(books, bookType), authors) == []
    ensures forall b :: b in MapRows(RowsByType(books, bookType), authors) ==> b.bookType == bookType
    ensures bookType == Some(EBooks.Tag) ==> forall b :: b in MapRows(RowsByType(books, bookType), authors) ==> b.variant.EBookPart?
  {
    var rows := RowsByType(books, bookType);
    forall b | b in MapRows(rows, authors)
      ensures b.bookType == bookType && (bookType == Some(EBooks.Tag) ==> b.variant.EBookPart?)
    {
      MapRowsMember(rows, authors, b);
      var row :| row in rows && Load(row, authors) == Some(b);
    }
    if bookType != Some(EBooks.Tag) && bookType != Some(PrintedBooks.Tag) && MapRows(rows, authors) != [] {
      var b := MapRows(rows, authors)[0];
      assert b in MapRows(rows, authors);
      MapRowsMember(rows, authors, b);
    }
  }

  /** Under the foreign key, every book `findByAuthorId` returns carries the
      author with that id. */
  lemma FindByAuthorIdAuthor(books: seq<Tables.BookRow>, authors: seq<Tables.AuthorRow>, authorId: int)
    requires Tables.AuthorsResolve(authors, books)
    ensures forall b :: b in MapRows(RowsByAuthor(books, authorId), authors) ==>
      b.author.Some? && b.author.value.id == authorId && b.author.value in authors
  {
    var rows := RowsByAuthor(books, authorId);
    forall b | b in MapRows(rows, authors)
      ensures b.author.Some? && b.author.value.id == authorId && b.author.value in authors
    {
      MapRowsMember(rows, authors, b);
      var row :| row in rows && Load(row, authors) == Some(b);
      assert row in books && row.authorId == authorId;
      MapRowDispatch(row, AuthorStore.FindAuthor(authors, row.authorId));
      LoadAuthor(row, authors);
    }
  }

  /** `findById`: the first row with that key, mapped; a row with another
      tag reads as no book. */
  function BookById(books: seq<Tables.BookRow>, authors: seq<Tables.AuthorRow>, id: int): (r: Option<BookValue>)
    ensures r.Some? ==> Tables.HasBook(books, id) && r.value.id == id
    ensures Tables.HasBook(books, id) && (forall row :: row in books ==> WellTagged(row)) ==> r.Some?
  {
    match Seqs.First(books, (row: Tables.BookRow) => row.id == id)
    case None => None
    case Some(row) => assert row in books; Load(row, authors)
  }

  /** `findByIsbn`: the first row with that ISBN, mapped; a null ISBN matches
      no row, and a first match with another tag reads as no book. */
  function BookByIsbn(books: seq<Tables.BookRow>, authors: seq<Tables.AuthorRow>, isbn: Option<string>): (r: Option<BookValue>)
    ensures r.Some? ==> isbn.Some? && r.value.isbn == isbn && exists row :: row in books && row.isbn == isbn
    ensures (isbn.Some? && exists row :: row in books && row.isbn == isbn) && (forall row :: row in books ==> WellTagged(row)) ==> r.Some?
  {
    match Seqs.First(books, (row: Tables.BookRow) => isbn.Some? && row.isbn == isbn)
    case None => None
    case Some(row) => assert row in books; Load(row, authors)
  }

  class BookRepository {
    const db: Tables.Database
    const authorRepository: AuthorStore.AuthorRepository

    /** Both repositories work on the same database. */
    constructor (authorRepository: AuthorStore.AuthorRepository)
      ensures this.authorRepository == authorRepository && db == authorRepository.db
    {
      this.authorRepository := authorRepository;
      this.db := authorRepository.db;
    }

    predicate Valid()
      reads db
    {
      db.Valid() && authorRepository.db == db
    }

    /** `findById`. */
    function FindById(id: int): (r: Option<BookValue>)
      reads db
      ensures r.Some? ==> r.value.id == id && Tables.HasBook(db.books, id)
      ensures Tables.HasBook(db.books, id) && (forall row :: row in db.books ==> WellTagged(row)) ==> r.Some?
    {
      BookById(db.books, db.authors, id)
    }

    /** `findByIsbn`. */
    function FindByIsbn(isbn: Option<string>): (r: Option<BookValue>)
      reads db
      ensures r.Some? ==> isbn.Some? && r.value.isbn == isbn && exists row :: row in db.books && row.isbn == isbn
      ensures isbn.Some? && (exists row :: row in db.books && row.isbn == isbn) && (forall row :: row in db.books ==> WellTagged(row)) ==> r.Some?
    {
      BookByIsbn(db.books, db.authors, isbn)
    }

    /** `existsById`: a `COUNT(*)` above zero. */
    function ExistsById(id: int): (b: bool)
      reads db
      ensures b <==> exists i :: 0 <= i < |db.books| && db.books[i].id == id
    {
      Tables.HasBook(db.books, id)
    }

    /** The loop over the result set: maps each row, resolving its author
        through the author store, and keeps the books. */
    method CollectMapped(rows: seq<Tables.BookRow>) returns (books: seq<BookValue>)
      requires Valid()
      ensures books == MapRows(rows, db.authors)
    {
      books := [];
      var i := 0;
      while i < |rows|
        invariant 0 <= i <= |rows|
        invariant books == MapRows(rows[..i], db.authors)
      {
        var book := MapRow(rows[i], authorRepository.FindById(rows[i].authorId));
        assert rows[..i + 1][..i] == rows[..i];
        if book.Some? {
          books := books + [book.value];
        }
        i := i + 1;
      }
      assert rows[..|rows|] == rows;
    }

    /** `findAll`: every row that maps to a book, in table order. */
    method FindAll() returns (books: seq<BookValue>)
      requires Valid()
      ensures books == MapRows(db.books, db.authors)
    {
      books := CollectMapped(db.books);
    }

    /** `findByAuthorId`. */
    method FindByAuthorId(authorId: int) returns (books: seq<BookValue>)
      requires Valid()
      ensures books == MapRows(RowsByAuthor(db.books, authorId), db.authors)
    {
      books := CollectMapped(RowsByAuthor(db.books, authorId));
    }

    /** `findByType`. */
    method FindByType(bookType: Option<string>) returns (books: seq<BookValue>)
      requires Valid()
      ensures books == MapRows(RowsByType(db.books, bookType), db.authors)
    {
      books := CollectMapped(RowsByType(db.books, bookType));
    }

    /** `mapResultSetToBook` building the objects: a fresh book of the row's
        variant, with a fresh author when the author row exists. */
    method MapResultSetToBook(row: Tables.BookRow) returns (r: Option<BookRef>)
      requires Valid()
      ensures r.Some? <==> WellTagged(row)
      ensures r.Some? ==> fresh(Parts(r.value)) && Snapshot(r.value) == Load(row, db.authors).value
      ensures r.Some? ==> Base(r.value).author == null || fresh(Base(r.value).author)
    {
      var found := authorRepository.FindById(row.authorId);
      var author: Authors.Author? := null;
      if found.Some? {
        author := new Authors.Author(found.value.id, found.value.name, found.value.birthYear, found.value.nationality);
      }
      if row.bookType == Some(EBooks.Tag) {
        var e := new EBooks.EBook(row.id, row.title, author, row.publishYear, row.isbn,
                                  RealOrZero(row.fileSize), row.downloadUrl);
        r := Some(EBookRef(e));
      } else if row.bookType == Some(PrintedBooks.Tag) {
        var p := new PrintedBooks.PrintedBook(row.id, row.title, author, row.publishYear, row.isbn,
                                              row.shelfLocation, RealOrZero(row.weight));
        r := Some(PrintedRef(p));
      } else {
        r := None;
      }
    }

    /** `save`: a book of either variant is inserted with its author's id, and
        the generated key is written back into it; the foreign key refuses a
        missing author, which is reported as a failed save; a book of neither
        variant is ignored. The caller must supply an author for a variant
        (`getAuthor().getId()` is dereferenced). */
    method Save(r: BookRef) returns (res: Outcome<Error>)
      requires Valid()
      requires r.OtherRef? || Base(r).author != null
      modifies db`books, db`nextBookId, Base(r)`id
      ensures Valid()
      ensures var v := old(Snapshot(r));
        match ColumnsOf(v, AuthorIdOf(v))
        case None =>
          res == Pass && db.books == old(db.books) && Base(r).id == old(Base(r).id)
        case Some(c) =>
          if Tables.HasAuthor(db.authors, c.authorId) then
            res == Pass && db.books == old(db.books) + [Tables.NewRow(old(db.nextBookId), c)] &&
            Base(r).id == old(db.nextBookId)
          else
            res == Fail(WriteFailure(v, "save")) && db.books == old(db.books) && Base(r).id == old(Base(r).id)
      ensures Snapshot(r) == old(Snapshot(r)).(id := Base(r).id)
      ensures Tables.HasAuthor(db.authors, AuthorIdOf(old(Snapshot(r)))) ==>
        res == Pass && db.books == old(db.books) + Inserted(old(Snapshot(r)), old(db.nextBookId))
      ensures db.nextBookId == if |db.books| > |old(db.books)| then old(db.nextBookId) + 1 else old(db.nextBookId)
    {
      var v := Snapshot(r);
      var columns := ColumnsOf(v, AuthorIdOf(v));
      if columns.None? {
        return Pass;
      }
      var key := db.InsertBook(columns.value);
      if key.None? {
        return Fail(WriteFailure(v, "save"));
      }
      Base(r).SetId(key.value);
      res := Pass;
    }

    /** `update`: the row with the book's id gets the book's columns; its tag
        is not rewritten. A change to a missing author is refused by the
        foreign key and reported as a failed update; a book of neither
        variant is ignored. */
    method Update(r: BookRef) returns (res: Outcome<Error>)
      requires Valid()
      requires r.OtherRef? || Base(r).author != null
      modifies db`books
      ensures Valid()
      ensures var v := Snapshot(r);
        match ColumnsOf(v, AuthorIdOf(v))
        case None =>
          res == Pass && db.books == old(db.books)
        case Some(c) =>
          if Tables.HasBook(old(db.books), v.id) && !Tables.HasAuthor(db.authors, c.authorId) then
            res == Fail(WriteFailure(v, "update")) && db.books == old(db.books)
          else
            res == Pass && db.books == Tables.UpdateBookRows(old(db.books), v.id, c)
    {
      var v := Snapshot(r);
      var columns := ColumnsOf(v, AuthorIdOf(v));
      if columns.None? {
        return Pass;
      }
      var outcome := db.UpdateBook(v.id, columns.value);
      if outcome.Fail? {
        return Fail(WriteFailure(v, "update"));
      }
      res := Pass;
    }

    /** `deleteById`. */
    method DeleteById(id: int)
      requires Valid()
      modifies db`books
      ensures Valid()
      ensures db.books == Tables.DeleteBookRows(old(db.books), id)
    {
      db.DeleteBook(id);
    }
  }
}
