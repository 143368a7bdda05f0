/** The part of a book that both variants share (`model.Book`). */
module Books {
  import opened Common
  import Validatable
  import Authors

  /** `model.Book`: the constructor stores its arguments unchecked and leaves
      the type tag null; each setter checks its argument and, on rejection,
      throws without changing anything; each setter writes only its own field. */
  class Book {
    var id: int
    var title: Option<string>
    var year: int
    var author: Authors.Author?
    var isbn: Option<string>
    var bookType: Option<string>

    constructor (id: int, title: Option<string>, author: Authors.Author?, year: int, isbn: Option<string>)
      ensures this.id == id && this.title == title && this.author == author
      ensures this.year == year && this.isbn == isbn && this.bookType.None?
    {
      this.id := id;
      this.title := title;
      this.year := year;
      this.author := author;
      this.isbn := isbn;
      this.bookType := None;
    }

    /** A non-positive id (such as a missing generated key) is ignored. */
    method SetId(id: int)
      modifies this`id
      ensures this.id == if Validatable.IsPositive(id) then id else old(this.id)
    {
      if id > 0 {
        this.id := id;
      }
    }

    method SetTitle(title: Option<string>) returns (r: Outcome<string>)
      modifies this`title
      ensures r == if Validatable.IsNotEmpty(title) then Pass else Fail("Title cannot be empty")
      ensures this.title == if r.Pass? then title else old(this.title)
    {
      if !Validatable.IsNotEmpty(title) {
        return Fail("Title cannot be empty");
      }
      this.title := title;
      r := Pass;
    }

    /** Years 0 to 2026 are accepted: year 0 passes here but not `isValidYear`. */
    method SetYear(year: int) returns (r: Outcome<string>)
      modifies this`year
      ensures r == if Validatable.InSetterYearRange(year) then Pass else Fail("Invalid year")
      ensures this.year == if r.Pass? then year else old(this.year)
    {
      if year < 0 || year > Validatable.MaxYear {
        return Fail("Invalid year");
      }
      this.year := year;
      r := Pass;
    }

    method SetAuthor(author: Authors.Author?) returns (r: Outcome<string>)
      modifies this`author
      ensures r == if author != null then Pass else Fail("Author cannot be null")
      ensures this.author == if r.Pass? then author else old(this.author)
    {
      if author == null {
        return Fail("Author cannot be null");
      }
      this.author := author;
      r := Pass;
    }

    /** Only null is rejected; a blank or unknown tag is accepted. */
    method SetBookType(bookType: Option<string>) returns (r: Outcome<string>)
      modifies this`bookType
      ensures r == if bookType.Some? then Pass else Fail("Book type cannot be null")
      ensures this.bookType == if r.Pass? then bookType else old(this.bookType)
    {
      if bookType.None? {
        return Fail("Book type cannot be null");
      }
      this.bookType := bookType;
      r := Pass;
    }

    /** Any ISBN is accepted, null and empty included. */
    method SetIsbn(isbn: Option<string>)
      modifies this`isbn
      ensures this.isbn == isbn
    {
      this.isbn := isbn;
    }
  }
}
