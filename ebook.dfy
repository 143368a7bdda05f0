/** The digital variant of a book (`model.EBook`). */
module EBooks {
  import opened Common
  import Text
  import Validatable
  import Borrowable
  import Authors
  import Books

  /** The type tag the constructor sets and the store writes. */
  const Tag: string := "EBOOK"

  /** The late fee per day of a new e-book. */
  const DefaultLateFee: real := 0.25

  /** The rules of `validate`/`getValidationError`, in their order, given the
      outcome of each check. */
  function Rules(titleOk: bool, authorOk: bool, yearOk: bool, urlOk: bool, sizeOk: bool): seq<Validatable.Rule>
  {
    [ Validatable.Rule(titleOk, "Title cannot be empty"),
      Validatable.Rule(authorOk, "Author cannot be null"),
      Validatable.Rule(yearOk, "Invalid year"),
      Validatable.Rule(urlOk, "Download URL cannot be empty"),
      Validatable.Rule(sizeOk, "File size cannot be negative") ]
  }

  /** An e-book: the shared `Book` part plus availability, file size, download
      URL and its own daily late fee. */
  class EBook {
    const book: Books.Book
    var available: bool
    var fileSize: real
    var downloadUrl: Option<string>
    var lateFee: real

    /** A new e-book is available, charges 0.25 a day and is tagged `EBOOK`. */
    constructor (id: int, title: Option<string>, author: Authors.Author?, year: int,
                 isbn: Option<string>, fileSize: real, downloadUrl: Option<string>)
      ensures fresh(book)
      ensures book.id == id && book.title == title && book.author == author
      ensures book.year == year && book.isbn == isbn && book.bookType == Some(Tag)
      ensures available && lateFee == DefaultLateFee
      ensures this.fileSize == fileSize && this.downloadUrl == downloadUrl
    {
      var b := new Books.Book(id, title, author, year, isbn);
      b.bookType := Some(Tag);
      book := b;
      available := true;
      this.fileSize := fileSize;
      this.downloadUrl := downloadUrl;
      lateFee := DefaultLateFee;
    }

    /** The fee agrees with the `Borrowable` default at this book's rate. */
    function CalculateLateFee(days: int): (fee: real)
      reads this
      ensures fee == Borrowable.CalculateDefaultLateFee(days, lateFee)
    {
      if days <= 0 then 0.0 else days as real * lateFee
    }

    function AccessInstructions(): (s: string)
      reads this
      ensures |s| >= 19 && s[..19] == "Visit the website: " && s[19..] == Text.Show(downloadUrl)
    {
      "Visit the website: " + Text.Show(downloadUrl)
    }

    /** Borrowing an available e-book makes it unavailable; borrowing a borrowed
        one changes nothing. */
    method Borrow()
      modifies this`available
      ensures !available
    {
      if !available {
        return;
      }
      available := false;
    }

    /** Returning always leaves the e-book available, whatever its state was. */
    method ReturnItem()
      modifies this`available
      ensures available
    {
      available := true;
    }

    method SetAvailable(available: bool)
      modifies this`available
      ensures this.available == available
    {
      this.available := available;
    }

    method SetLateFee(lateFee: real) returns (r: Outcome<string>)
      modifies this`lateFee
      ensures r == if lateFee >= 0.0 then Pass else Fail("Late fee cannot be negative")
      ensures this.lateFee == if r.Pass? then lateFee else old(this.lateFee)
    {
      if lateFee < 0.0 {
        return Fail("Late fee cannot be negative");
      }
      this.lateFee := lateFee;
      r := Pass;
    }

    method SetDownloadUrl(downloadUrl: Option<string>) returns (r: Outcome<string>)
      modifies this`downloadUrl
      ensures r == if Validatable.IsNotEmpty(downloadUrl) then Pass else Fail("Download URL cannot be empty")
      ensures this.downloadUrl == if r.Pass? then downloadUrl else old(this.downloadUrl)
    {
      if !Validatable.IsNotEmpty(downloadUrl) {
        return Fail("Download URL cannot be empty");
      }
      this.downloadUrl := downloadUrl;
      r := Pass;
    }

    method SetFilesize(fileSize: real) returns (r: Outcome<string>)
      modifies this`fileSize
      ensures r == if fileSize >= 0.0 then Pass else Fail("File size cannot be negative")
      ensures this.fileSize == if r.Pass? then fileSize else old(this.fileSize)
    {
      if fileSize < 0.0 {
        return Fail("File size cannot be negative");
      }
      this.fileSize := fileSize;
      r := Pass;
    }

    /** `getValidationError`: the message of the first failing rule in the order
        title, author, year (`isValidYear`, so year 0 fails), URL, file size;
        empty when all hold. */
    function ValidationError(): (e: string)
      reads this, book
      ensures e == "" <==> Validatable.AllHold(CheckedRules())
      ensures e != "" ==> exists k :: Validatable.FirstFailingAt(CheckedRules(), k) && e == CheckedRules()[k].message
    {
      Validatable.ErrorText(CheckedRules())
    }

    /** The rules evaluated on the current fields. */
    function CheckedRules(): seq<Validatable.Rule>
      reads this, book
    {
      Rules(Validatable.IsNotEmpty(book.title), Validatable.IsNotNull(book.author),
            Validatable.IsValidYear(book.year), Validatable.IsNotEmpty(downloadUrl), fileSize >= 0.0)
    }

    /** `validate`, written in the source as its own conjunction, agrees with
        `getValidationError`. */
    predicate Validate()
      reads this, book
      ensures Validate() <==> ValidationError() == ""
    {
      RulesHoldIff(Validatable.IsNotEmpty(book.title), Validatable.IsNotNull(book.author),
                   Validatable.IsValidYear(book.year), Validatable.IsNotEmpty(downloadUrl), fileSize >= 0.0);
      Validatable.IsNotEmpty(book.title) && Validatable.IsNotNull(book.author)
      && Validatable.IsValidYear(book.year) && Validatable.IsNotEmpty(downloadUrl) && fileSize >= 0.0
    }

    /** The default `validateAndLog` returns the outcome of `validate`. */
    predicate ValidateAndLog()
      reads this, book
      ensures ValidateAndLog() <==> ValidationError() == ""
    {
      Validate()
    }

    /** The default `getValidationSummary` for class `EBook`. */
    function ValidationSummary(): (s: string)
      reads this, book
      ensures s == Validatable.ValidationSummary("EBook", ValidationError() == "", ValidationError())
    {
      Validatable.ValidationSummary("EBook", Validate(), ValidationError())
    }
  }

  /** All rules hold exactly when every check passes. */
  lemma RulesHoldIff(titleOk: bool, authorOk: bool, yearOk: bool, urlOk: bool, sizeOk: bool)
    ensures Validatable.AllHold(Rules(titleOk, authorOk, yearOk, urlOk, sizeOk)) <==>
      (titleOk && authorOk && yearOk && urlOk && sizeOk)
  {
    var rules := Rules(titleOk, authorOk, yearOk, urlOk, sizeOk);
    assert !rules[0].holds || !rules[1].holds || !rules[2].holds || !rules[3].holds || !rules[4].holds
      || Validatable.AllHold(rules);
  }

  /** The validator reports the first failing check in the order title, author,
      year, download URL, file size. */
  lemma ValidationOrder(titleOk: bool, authorOk: bool, yearOk: bool, urlOk: bool, sizeOk: bool)
    ensures var e := Validatable.ErrorText(Rules(titleOk, authorOk, yearOk, urlOk, sizeOk));
      && (!titleOk ==> e == "Title cannot be empty")
      && (titleOk && !authorOk ==> e == "Author cannot be null")
      && (titleOk && authorOk && !yearOk ==> e == "Invalid year")
      && (titleOk && authorOk && yearOk && !urlOk ==> e == "Download URL cannot be empty")
      && (titleOk && authorOk && yearOk && urlOk && !sizeOk ==> e == "File size cannot be negative")
      && (titleOk && authorOk && yearOk && urlOk && sizeOk ==> e == "")
  {
    var rules := Rules(titleOk, authorOk, yearOk, urlOk, sizeOk);
    if !titleOk {
      Validatable.ErrorTextOfFirstFailing(rules, 0);
    } else if !authorOk {
      Validatable.ErrorTextOfFirstFailing(rules, 1);
    } else if !yearOk {
      Validatable.ErrorTextOfFirstFailing(rules, 2);
    } else if !urlOk {
      Validatable.ErrorTextOfFirstFailing(rules, 3);
    } else if !sizeOk {
      Validatable.ErrorTextOfFirstFailing(rules, 4);
    } else {
      RulesHoldIff(titleOk, authorOk, yearOk, urlOk, sizeOk);
    }
  }
}
