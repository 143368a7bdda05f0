/** A `Book` reference as the service and repository layers see it: one of the
    two variants, or some other subclass, which they dispatch on with
    `instanceof`; and the value such a book holds at one moment. */
module BookVariants {
  import opened Common
  import Authors
  import Books
  import EBooks
  import PrintedBooks

  /** A reference of static type `Book`. */
  datatype BookRef =
    | EBookRef(ebook: EBooks.EBook)
    | PrintedRef(printed: PrintedBooks.PrintedBook)
    | OtherRef(other: Books.Book)

  /** The `Book` part of the referenced object. */
  function Base(r: BookRef): Books.Book {
    match r
    case EBookRef(e) => e.book
    case PrintedRef(p) => p.book
    case OtherRef(b) => b
  }

  /** The objects the reference's own fields live in. */
  function Parts(r: BookRef): set<object> {
    match r
    case EBookRef(e) => {e, e.book}
    case PrintedRef(p) => {p, p.book}
    case OtherRef(b) => {b}
  }

  /** The fields only a variant has. */
  datatype Variant =
    | EBookPart(fileSize: real, downloadUrl: Option<string>, available: bool, lateFee: real)
    | PrintedPart(shelfLocation: Option<string>, weight: real, available: bool, lateFee: real)
    | OtherPart

  /** The value of a book: its shared fields, its author (null or that
      author's fields) and its variant part. */
  datatype BookValue = BookValue(
    id: int,
    title: Option<string>,
    author: Option<Authors.AuthorData>,
    year: int,
    isbn: Option<string>,
    bookType: Option<string>,
    variant: Variant)

  /** The current value of the referenced book. */
  function Snapshot(r: BookRef): (v: BookValue)
    reads Parts(r), Base(r).author
    ensures v.id == Base(r).id && v.title == Base(r).title && v.year == Base(r).year
    ensures v.isbn == Base(r).isbn && v.bookType == Base(r).bookType
    ensures v.author.None? <==> Base(r).author == null
    ensures v.author.Some? ==> v.author.value == Base(r).author.Data()
    ensures v.variant.EBookPart? <==> r.EBookRef?
    ensures v.variant.PrintedPart? <==> r.PrintedRef?
  {
    var b := Base(r);
    BookValue(
      b.id, b.title,
      if b.author == null then None else Some(b.author.Data()),
      b.year, b.isbn, b.bookType,
      match r
      case EBookRef(e) => EBookPart(e.fileSize, e.downloadUrl, e.available, e.lateFee)
      case PrintedRef(p) => PrintedPart(p.shelfLocation, p.weight, p.available, p.lateFee)
      case OtherRef(_) => OtherPart)
  }

  /** The availability of a variant; a book of neither variant is not `Borrowable`. */
  function Available(v: BookValue): Option<bool> {
    match v.variant
    case EBookPart(_, _, a, _) => Some(a)
    case PrintedPart(_, _, a, _) => Some(a)
    case OtherPart => None
  }
}
