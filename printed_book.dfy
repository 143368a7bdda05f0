/** The physical variant of a book (`model.PrintedBook`). */
module PrintedBooks {
  import opened Common
  import Text
  import Validatable
  import Borrowable
  import Authors
  import Books

  /** The type tag the constructor sets and the store writes. */
  const Tag: string := "PRINTED"

  /** The late fee per day of a new printed book. */
  const DefaultLateFee: real := 0.5

  /** The rules of `validate`/`getValidationError`, in their order, given the
      outcome of each check. */
  function Rules(titleOk: bool, authorOk: bool, yearOk: bool, shelfOk: bool, weightOk: bool): seq<Validatable.Rule>
  {
    [ Validatable.Rule(titleOk, "Title cannot be empty"),
      Validatable.Rule(authorOk, "Author cannot be null"),
      Validatable.Rule(yearOk, "Invalid year"),
      Validatable.Rule(shelfOk, "Shelf location cannot be empty"),
      Validatable.Rule(weightOk, "Weight cannot be negative") ]
  }

  /** A printed book: the shared `Book` part plus availability, shelf location,
      weight and its own daily late fee. */
  class PrintedBook {
    const book: Books.Book
    var available: bool
    var shelfLocation: Option<string>
    var weight: real
    var lateFee: real

    /** A new printed book is available, charges 0.5 a day and is tagged `PRINTED`. */
    constructor (id: int, title: Option<string>, author: Authors.Author?, year: int,
                 isbn: Option<string>, shelfLocation: Option<string>, weight: real)
      ensures fresh(book)
      ensures book.id == id && book.title == title && book.author == author
      ensures book.year == year && book.isbn == isbn && book.bookType == Some(Tag)
      ensures available && lateFee == DefaultLateFee
      ensures this.shelfLocation == shelfLocation && this.weight == weight
    {
      var b := new Books.Book(id, title, author, year, isbn);
      b.bookType := Some(Tag);
      book := b;
      available := true;
      this.shelfLocation := shelfLocation;
      this.weight := weight;
      lateFee := DefaultLateFee;
    }

    /** The fee agrees with the `Borrowable` default at this book's rate. */
    function CalculateLateFee(days: int): (fee: real)
      reads this
      ensures fee == Borrowable.CalculateDefaultLateFee(days, lateFee)
    {
      if days <= 0 then 0.0 else days as real * lateFee
    }

    function AccessInstructions(): (s: string)
      reads this
      ensures |s| >= 12 && s[..12] == "Located at: " && s[12..] == Text.Show(shelfLocation)
    {
      "Located at: " + Text.Show(shelfLocation)
    }

    /** Borrowing an available book makes it unavailable; borrowing a borrowed
        one changes nothing. */
    method Borrow()
      modifies this`available
      ensures !available
    {
      if !available {
        return;
      }
      available := false;
    }

    /** Returning a borrowed book makes it available; returning an available
        one does not write at all. */
    method ReturnItem()
      modifies this`available
      ensures available
      ensures old(available) ==> unchanged(this)
    {
      if !available {
        available := true;
      }
    }

    method SetAvailable(available: bool)
      modifies this`available
      ensures this.available == available
    {
      this.available := available;
    }

    method SetShelfLocation(shelfLocation: Option<string>) returns (r: Outcome<string>)
      modifies this`shelfLocation
      ensures r == if Validatable.IsNotEmpty(shelfLocation) then Pass else Fail("Location cannot be empty.")
      ensures this.shelfLocation == if r.Pass? then shelfLocation else old(this.shelfLocation)
    {
      if !Validatable.IsNotEmpty(shelfLocation) {
        return Fail("Location cannot be empty.");
      }
      this.shelfLocation := shelfLocation;
      r := Pass;
    }

    method SetWeight(weight: real) returns (r: Outcome<string>)
      modifies this`weight
      ensures r == if weight >= 0.0 then Pass else Fail("Weight cannot be negative.")
      ensures this.weight == if r.Pass? then weight else old(this.weight)
    {
      if weight < 0.0 {
        return Fail("Weight cannot be negative.");
      }
      this.weight := weight;
      r := Pass;
    }

    method SetLateFee(lateFee: real) returns (r: Outcome<string>)
      modifies this`lateFee
      ensures r == if lateFee >= 0.0 then Pass else Fail("Late fee cannot be negative.")
      ensures this.lateFee == if r.Pass? then lateFee else old(this.lateFee)
    {
      if lateFee < 0.0 {
        return Fail("Late fee cannot be negative.");
      }
      this.lateFee := lateFee;
      r := Pass;
    }

    /** The rules evaluated on the current fields. */
    function CheckedRules(): seq<Validatable.Rule>
      reads this, book
    {
      Rules(Validatable.IsNotEmpty(book.title), Validatable.IsNotNull(book.author),
            Validatable.IsValidYear(book.year), Validatable.IsNotEmpty(shelfLocation), weight >= 0.0)
    }

    /** `getValidationError`: the message of the first failing rule in the order
        title, author, year (`isValidYear`, so year 0 fails), shelf location,
        weight; empty when all hold. */
    function ValidationError(): (e: string)
      reads this, book
      ensures e == "" <==> Validatable.AllHold(CheckedRules())
      ensures e != "" ==> exists k :: Validatable.FirstFailingAt(CheckedRules(), k) && e == CheckedRules()[k].message
    {
      Validatable.ErrorText(CheckedRules())
    }

    /** `validate`, written in the source as its own conjunction, agrees with
        `getValidationError`. */
    predicate Validate()
      reads this, book
      ensures Validate() <==> ValidationError() == ""
    {
      RulesHoldIff(Validatable.IsNotEmpty(book.title), Validatable.IsNotNull(book.author),
                   Validatable.IsValidYear(book.year), Validatable.IsNotEmpty(shelfLocation), weight >= 0.0);
      Validatable.IsNotEmpty(book.title) && Validatable.IsNotNull(book.author)
      && Validatable.IsValidYear(book.year) && Validatable.IsNotEmpty(shelfLocation) && weight >= 0.0
    }

    /** The default `validateAndLog` returns the outcome of `validate`. */
    predicate ValidateAndLog()
      reads this, book
      ensures ValidateAndLog() <==> ValidationError() == ""
    {
      Validate()
    }

    /** The default `getValidationSummary` for class `PrintedBook`. */
    function ValidationSummary(): (s: string)
      reads this, book
      ensures s == Validatable.ValidationSummary("PrintedBook", ValidationError() == "", ValidationError())
    {
      Validatable.ValidationSummary("PrintedBook", Validate(), ValidationError())
    }
  }

  /** All rules hold exactly when every check passes. */
  lemma RulesHoldIff(titleOk: bool, authorOk: bool, yearOk: bool, shelfOk: bool, weightOk: bool)
    ensures Validatable.AllHold(Rules(titleOk, authorOk, yearOk, shelfOk, weightOk)) <==>
      (titleOk && authorOk && yearOk && shelfOk && weightOk)
  {
    var rules := Rules(titleOk, authorOk, yearOk, shelfOk, weightOk);
    assert !rules[0].holds || !rules[1].holds || !rules[2].holds || !rules[3].holds || !rules[4].holds
      || Validatable.AllHold(rules);
  }

  /** The validator reports the first failing check in the order title, author,
      year, shelf location, weight. */
  lemma ValidationOrder(titleOk: bool, authorOk: bool, yearOk: bool, shelfOk: bool, weightOk: bool)
    ensures var e := Validatable.ErrorText(Rules(titleOk, authorOk, yearOk, shelfOk, weightOk));
      && (!titleOk ==> e == "Title cannot be empty")
      && (titleOk && !authorOk ==> e == "Author cannot be null")
      && (titleOk && authorOk && !yearOk ==> e == "Invalid year")
      && (titleOk && authorOk && yearOk && !shelfOk ==> e == "Shelf location cannot be empty")
      && (titleOk && authorOk && yearOk && shelfOk && !weightOk ==> e == "Weight cannot be negative")
      && (titleOk && authorOk && yearOk && shelfOk && weightOk ==> e == "")
  {
    var rules := Rules(titleOk, authorOk, yearOk, shelfOk, weightOk);
    if !titleOk {
      Validatable.ErrorTextOfFirstFailing(rules, 0);
    } else if !authorOk {
      Validatable.ErrorTextOfFirstFailing(rules, 1);
    } else if !yearOk {
      Validatable.ErrorTextOfFirstFailing(rules, 2);
    } else if !shelfOk {
      Validatable.ErrorTextOfFirstFailing(rules, 3);
    } else if !weightOk {
      Validatable.ErrorTextOfFirstFailing(rules, 4);
    } else {
      RulesHoldIff(titleOk, authorOk, yearOk, shelfOk, weightOk);
    }
  }
}
