/** The relational store behind both repositories: the `authors` and `books`
    tables, their generated keys, their primary keys and the foreign key
    `books.author_id -> authors.id`. Tables are sequences in storage order,
    which stands for the order a query without `ORDER BY` returns rows in. */
module Tables {
  import opened Common
  import Seqs
  import Authors

  /** A row of `authors(id, name, birthyear, nationality)`. */
  type AuthorRow = Authors.AuthorData

  /** A row of `books`; the columns of the other variant are NULL or stale. */
  datatype BookRow = BookRow(
    id: int,
    title: Option<string>,
    isbn: Option<string>,
    authorId: int,
    publishYear: int,
    bookType: Option<string>,
    downloadUrl: Option<string>,
    fileSize: Option<real>,
    shelfLocation: Option<string>,
    weight: Option<real>,
    available: bool)

  /** The columns that only one variant writes. */
  datatype VariantColumns =
    | DigitalColumns(downloadUrl: Option<string>, fileSize: real)
    | PhysicalColumns(shelfLocation: Option<string>, weight: real)

  /** The values an `INSERT` or `UPDATE` statement on `books` binds. */
  datatype Columns = Columns(
    title: Option<string>,
    isbn: Option<string>,
    authorId: int,
    publishYear: int,
    bookType: string,
    variant: VariantColumns,
    available: bool)

  /** The text of the store's foreign-key error. */
  const ForeignKeyViolation := "violates foreign key constraint"

  /** The row an `INSERT` creates: the key is generated and the columns of
      the other variant are left NULL. */
  function NewRow(id: int, c: Columns): BookRow {
    match c.variant
    case DigitalColumns(url, size) =>
      BookRow(id, c.title, c.isbn, c.authorId, c.publishYear, Some(c.bookType), url, Some(size), None, None, c.available)
    case PhysicalColumns(location, weight) =>
      BookRow(id, c.title, c.isbn, c.authorId, c.publishYear, Some(c.bookType), None, None, location, Some(weight), c.available)
  }

  /** The row an `UPDATE ... SET` leaves: `book_type` and the other variant's
      columns are not in the `SET` list and keep their values. */
  function SetColumns(row: BookRow, c: Columns): BookRow {
    match c.variant
    case DigitalColumns(url, size) =>
      row.(title := c.title, isbn := c.isbn, authorId := c.authorId, publishYear := c.publishYear,
           downloadUrl := url, fileSize := Some(size), available := c.available)
    case PhysicalColumns(location, weight) =>
      row.(title := c.title, isbn := c.isbn, authorId := c.authorId, publishYear := c.publishYear,
           shelfLocation := location, weight := Some(weight), available := c.available)
  }

  predicate HasAuthor(authors: seq<AuthorRow>, id: int) {
    exists a :: a in authors && a.id == id
  }

  predicate HasBook(books: seq<BookRow>, id: int) {
    exists b :: b in books && b.id == id
  }

  /** Some book row references author `id`. */
  predicate Referenced(books: seq<BookRow>, id: int) {
    exists b :: b in books && b.authorId == id
  }

  predicate DistinctAuthorIds(authors: seq<AuthorRow>) {
    Seqs.Pairwise(authors, (a: AuthorRow, b: AuthorRow) => a.id != b.id)
  }

  predicate DistinctBookIds(books: seq<BookRow>) {
    Seqs.Pairwise(books, (a: BookRow, b: BookRow) => a.id != b.id)
  }

  /** The foreign key: every book row names a stored author. */
  predicate AuthorsResolve(authors: seq<AuthorRow>, books: seq<BookRow>) {
    forall b :: b in books ==> HasAuthor(authors, b.authorId)
  }

  /** `UPDATE authors ... WHERE id = ?`. */
  function UpdateAuthorRows(authors: seq<AuthorRow>, a: AuthorRow): (r: seq<AuthorRow>)
    ensures |r| == |authors|
  {
    seq(|authors|, i requires 0 <= i < |authors| => if authors[i].id == a.id then a else authors[i])
  }

  /** `DELETE FROM authors WHERE id = ?`. */
  function DeleteAuthorRows(authors: seq<AuthorRow>, id: int): seq<AuthorRow> {
    Seqs.Filter(authors, (a: AuthorRow) => a.id != id)
  }

  /** `UPDATE books ... WHERE id = ?`. */
  function UpdateBookRows(books: seq<BookRow>, id: int, c: Columns): (r: seq<BookRow>)
    ensures |r| == |books|
  {
    seq(|books|, i requires 0 <= i < |books| => if books[i].id == id then SetColumns(books[i], c) else books[i])
  }

  /** `DELETE FROM books WHERE id = ?`. */
  function DeleteBookRows(books: seq<BookRow>, id: int): seq<BookRow> {
    Seqs.Filter(books, (b: BookRow) => b.id != id)
  }

  /** An author update keeps every key, so the foreign key still holds. */
  lemma UpdateAuthorRowsKeys(authors: seq<AuthorRow>, books: seq<BookRow>, a: AuthorRow, next: int)
    requires forall x :: x in authors ==> 1 <= x.id < next
    requires DistinctAuthorIds(authors) && AuthorsResolve(authors, books)
    ensures forall x :: x in UpdateAuthorRows(authors, a) ==> 1 <= x.id < next
    ensures DistinctAuthorIds(UpdateAuthorRows(authors, a)) && AuthorsResolve(UpdateAuthorRows(authors, a), books)
  {
    var r := UpdateAuthorRows(authors, a);
    assert forall i :: 0 <= i < |r| ==> r[i].id == authors[i].id;
    forall x | x in r ensures 1 <= x.id < next {
      var i :| 0 <= i < |r| && r[i] == x;
      assert authors[i] in authors;
    }
    forall b | b in books ensures HasAuthor(r, b.authorId) {
      var y :| y in authors && y.id == b.authorId;
      var i :| 0 <= i < |authors| && authors[i] == y;
      assert r[i] in r;
    }
  }

  /** An update keeps every key, and the foreign key when the new author is
      stored or no row is changed. */
  lemma UpdateBookRowsKeys(authors: seq<AuthorRow>, books: seq<BookRow>, id: int, c: Columns, next: int)
    requires forall b :: b in books ==> 1 <= b.id < next
    requires DistinctBookIds(books) && AuthorsResolve(authors, books)
    requires HasBook(books, id) ==> HasAuthor(authors, c.authorId)
    ensures forall b :: b in UpdateBookRows(books, id, c) ==> 1 <= b.id < next
    ensures DistinctBookIds(UpdateBookRows(books, id, c)) && AuthorsResolve(authors, UpdateBookRows(books, id, c))
  {
    var r := UpdateBookRows(books, id, c);
    assert forall i :: 0 <= i < |r| ==> r[i].id == books[i].id;
    forall x | x in r ensures 1 <= x.id < next && HasAuthor(authors, x.authorId) {
      var i :| 0 <= i < |r| && r[i] == x;
      assert books[i] in books;
    }
  }

  /** An update of a missing id changes no row. */
  lemma UpdateBookRowsMissing(books: seq<BookRow>, id: int, c: Columns)
    requires !HasBook(books, id)
    ensures UpdateBookRows(books, id, c) == books
  {
    forall i | 0 <= i < |books| ensures UpdateBookRows(books, id, c)[i] == books[i] {
      assert books[i] in books;
    }
  }

  /** Both tables, the next value of each key sequence, and the constraints
      the store enforces. */
  class Database {
    var authors: seq<AuthorRow>
    var books: seq<BookRow>
    var nextAuthorId: int
    var nextBookId: int

    /** Keys are positive, below the next generated key and distinct, and
        the foreign key holds. */
    predicate Valid()
      reads this
    {
      && 1 <= nextAuthorId && 1 <= nextBookId
      && (forall a :: a in authors ==> 1 <= a.id < nextAuthorId)
      && (forall b :: b in books ==> 1 <= b.id < nextBookId)
      && DistinctAuthorIds(authors)
      && DistinctBookIds(books)
      && AuthorsResolve(authors, books)
    }

    constructor ()
      ensures Valid() && authors == [] && books == []
    {
      authors := [];
      books := [];
      nextAuthorId := 1;
      nextBookId := 1;
    }

    /** `INSERT INTO authors`: the row gets the next generated key. */
    method InsertAuthor(name: Option<string>, birthYear: int, nationality: Option<string>) returns (key: int)
      requires Valid()
      modifies this`authors, this`nextAuthorId
      ensures Valid()
      ensures key == old(nextAuthorId) && nextAuthorId == key + 1
      ensures authors == old(authors) + [Authors.AuthorData(key, name, birthYear, nationality)]
    {
      key := nextAuthorId;
      var row := Authors.AuthorData(key, name, birthYear, nationality);
      authors := authors + [row];
      nextAuthorId := nextAuthorId + 1;
      forall b | b in books ensures HasAuthor(authors, b.authorId) {
        var a :| a in old(authors) && a.id == b.authorId;
        assert a in authors;
      }
    }

    /** `UPDATE authors SET ... WHERE id = ?`. */
    method UpdateAuthor(a: AuthorRow)
      requires Valid()
      modifies this`authors
      ensures Valid()
      ensures authors == UpdateAuthorRows(old(authors), a)
    {
      UpdateAuthorRowsKeys(authors, books, a, nextAuthorId);
      authors := UpdateAuthorRows(authors, a);
    }

    /** `DELETE FROM authors WHERE id = ?`, refused while a book row still
        references the author. */
    method DeleteAuthor(id: int) returns (r: Outcome<string>)
      requires Valid()
      modifies this`authors
      ensures Valid()
      ensures r == if Referenced(books, id) then Fail(ForeignKeyViolation) else Pass
      ensures authors == if r.Pass? then DeleteAuthorRows(old(authors), id) else old(authors)
    {
      if exists b :: b in books && b.authorId == id {
        return Fail(ForeignKeyViolation);
      }
      ghost var before := authors;
      Seqs.FilterPairwise(authors, (a: AuthorRow) => a.id != id, (a: AuthorRow, b: AuthorRow) => a.id != b.id);
      authors := DeleteAuthorRows(authors, id);
      forall b | b in books ensures HasAuthor(authors, b.authorId) {
        var y :| y in before && y.id == b.authorId;
        assert y in authors;
      }
      r := Pass;
    }

    /** `INSERT INTO books`: refused when the author id names no author,
        otherwise the row gets the next generated key. */
    method InsertBook(c: Columns) returns (key: Option<int>)
      requires Valid()
      modifies this`books, this`nextBookId
      ensures Valid()
      ensures key == if HasAuthor(authors, c.authorId) then Some(old(nextBookId)) else None
      ensures books == if key.Some? then old(books) + [NewRow(key.value, c)] else old(books)
      ensures nextBookId == if key.Some? then old(nextBookId) + 1 else old(nextBookId)
    {
      if !HasAuthor(authors, c.authorId) {
        return None;
      }
      key := Some(nextBookId);
      books := books + [NewRow(nextBookId, c)];
      nextBookId := nextBookId + 1;
    }

    /** `UPDATE books SET ... WHERE id = ?`: refused when a row would be
        changed to name a missing author. */
    method UpdateBook(id: int, c: Columns) returns (r: Outcome<string>)
      requires Valid()
      modifies this`books
      ensures Valid()
      ensures r == if HasBook(old(books), id) && !HasAuthor(authors, c.authorId) then Fail(ForeignKeyViolation) else Pass
      ensures books == if r.Pass? then UpdateBookRows(old(books), id, c) else old(books)
    {
      if HasBook(books, id) && !HasAuthor(authors, c.authorId) {
        return Fail(ForeignKeyViolation);
      }
      UpdateBookRowsKeys(authors, books, id, c, nextBookId);
      books := UpdateBookRows(books, id, c);
      r := Pass;
    }

    /** `DELETE FROM books WHERE id = ?`. */
    method DeleteBook(id: int)
      requires Valid()
      modifies this`books
      ensures Valid()
      ensures books == DeleteBookRows(old(books), id)
    {
      ghost var before := books;
      Seqs.FilterPairwise(books, (b: BookRow) => b.id != id, (a: BookRow, b: BookRow) => a.id != b.id);
      books := DeleteBookRows(books, id);
    }
  }
}
