/** The author service (`AuthorServiceImpl`): the rules checked before an
    author is written or deleted, and the authors sorted by name. */
module AuthorServices {
  import opened Common
  import Seqs
  import Text
  import Validatable
  import Authors
  import Tables
  import Sorting
  import AuthorStore

  /** The rules `createAuthor` checks, in their order, given the outcome of
      each check. */
  function AuthorRules(nameOk: bool, birthYearOk: bool, nationalityOk: bool): seq<Validatable.Rule> {
    [ Validatable.Rule(nameOk, "Name cannot be empty"),
      Validatable.Rule(birthYearOk, "Birth year cannot be negative"),
      Validatable.Rule(nationalityOk, "Nationality cannot be empty") ]
  }

  /** The rules checked for the author `a`: the birth year only has to be
      non-negative, with no upper bound. */
  function CheckedRules(a: Authors.AuthorData): seq<Validatable.Rule> {
    AuthorRules(Validatable.IsNotEmpty(a.name), a.birthYear >= 0, Validatable.IsNotEmpty(a.nationality))
  }

  /** The validation part of `createAuthor`: the first failing rule, as an
      invalid-input error. */
  function ValidateAuthor(a: Authors.AuthorData): (r: Outcome<Error>)
    ensures r.Pass? <==> Validatable.AllHold(CheckedRules(a))
    ensures r.Fail? ==> (r.error.InvalidInput? &&
      exists k :: Validatable.FirstFailingAt(CheckedRules(a), k) && r.error.message == CheckedRules(a)[k].message)
  {
    match Validatable.FirstFailure(CheckedRules(a))
    case None => Pass
    case Some(message) => Fail(InvalidInput(message))
  }

  /** The order of the checks: name, then birth year, then nationality. */
  lemma ValidationOrder(nameOk: bool, birthYearOk: bool, nationalityOk: bool)
    ensures Validatable.FirstFailure(AuthorRules(nameOk, birthYearOk, nationalityOk)) ==
      if !nameOk then Some("Name cannot be empty")
      else if !birthYearOk then Some("Birth year cannot be negative")
      else if !nationalityOk then Some("Nationality cannot be empty")
      else None
  {
    var rules := AuthorRules(nameOk, birthYearOk, nationalityOk);
    if !nameOk {
      Validatable.FirstFailureOfFirstFailing(rules, 0);
    } else if !birthYearOk {
      Validatable.FirstFailureOfFirstFailing(rules, 1);
    } else if !nationalityOk {
      Validatable.FirstFailureOfFirstFailing(rules, 2);
    }
  }

  /** The service accepts a birth year the author's own setter refuses. */
  lemma BirthYearHasNoUpperBound()
    ensures ValidateAuthor(Authors.AuthorData(0, Some("Ann"), 3000, Some("Irish"))) == Pass
    ensures !Validatable.InSetterYearRange(3000)
  {
    var a := Authors.AuthorData(0, Some("Ann"), 3000, Some("Irish"));
    assert Text.Trim("Ann") != [] by {
      Text.TrimEmptyIffAllTrimmable("Ann");
      assert !Text.IsTrimmable("Ann"[0]);
    }
    assert Text.Trim("Irish") != [] by {
      Text.TrimEmptyIffAllTrimmable("Irish");
      assert !Text.IsTrimmable("Irish"[0]);
    }
    ValidationOrder(true, true, true);
  }

  function AuthorNotFound(id: int): Error {
    NotFound("Author with ID " + Text.IntToString(id) + " not found")
  }

  /** The checks of `createAuthor`, in their order: validation, then an
      author with exactly the same name. */
  function CreateDecision(a: Authors.AuthorData, authors: seq<Tables.AuthorRow>): Outcome<Error> {
    if ValidateAuthor(a).Fail? then ValidateAuthor(a)
    else if AuthorStore.FindName(authors, a.name).Some? then
      Fail(DuplicateResource("Author with name '" + Text.Show(a.name) + "' already exists"))
    else Pass
  }

  /** No two authors share a name. */
  predicate UniqueNames(authors: seq<Tables.AuthorRow>) {
    Seqs.Pairwise(authors, (x: Tables.AuthorRow, y: Tables.AuthorRow) => x.name != y.name)
  }

  /** What each outcome of `createAuthor` means, and that an accepted one
      keeps names unique. */
  lemma CreateDecisionMeaning(a: Authors.AuthorData, authors: seq<Tables.AuthorRow>, key: int)
    ensures var d := CreateDecision(a, authors);
      && (ValidateAuthor(a).Fail? ==> d == ValidateAuthor(a))
      && (d.Fail? && d.error.DuplicateResource? <==>
            ValidateAuthor(a).Pass? && exists x :: x in authors && x.name == a.name)
      && (d.Pass? ==> Validatable.IsNotEmpty(a.name) && a.birthYear >= 0 && Validatable.IsNotEmpty(a.nationality))
      && (d.Pass? && UniqueNames(authors) ==> UniqueNames(authors + [a.(id := key)]))
  {
    ValidationOrder(Validatable.IsNotEmpty(a.name), a.birthYear >= 0, Validatable.IsNotEmpty(a.nationality));
    var found := AuthorStore.FindName(authors, a.name);
    if ValidateAuthor(a).Pass? {
      assert a.name.Some?;
      assert found.Some? <==> exists x :: x in authors && x.name == a.name;
    }
    if CreateDecision(a, authors).Pass? && UniqueNames(authors) {
      UniqueNamesAppend(authors, a.(id := key));
    }
  }

  /** Appending a row whose name no row has keeps names unique. */
  lemma UniqueNamesAppend(authors: seq<Tables.AuthorRow>, row: Tables.AuthorRow)
    requires UniqueNames(authors) && forall x :: x in authors ==> x.name != row.name
    ensures UniqueNames(authors + [row])
  {
    var after := authors + [row];
    forall i | 0 <= i < |authors| ensures authors[i].name != after[|authors|].name {
      assert authors[i] in authors;
    }
  }

  /** The checks of `updateAuthor` before the write: existence first, then
      only the name; birth year and nationality are not checked. */
  function UpdateDecision(a: Authors.AuthorData, authors: seq<Tables.AuthorRow>): (d: Outcome<Error>)
    ensures !Tables.HasAuthor(authors, a.id) ==> d == Fail(AuthorNotFound(a.id))
    ensures Tables.HasAuthor(authors, a.id) ==> (d.Pass? <==> Validatable.IsNotEmpty(a.name))
    ensures d.Fail? && Tables.HasAuthor(authors, a.id) ==> d.error == InvalidInput("Name cannot be empty")
  {
    if !Tables.HasAuthor(authors, a.id) then Fail(AuthorNotFound(a.id))
    else if !Validatable.IsNotEmpty(a.name) then Fail(InvalidInput("Name cannot be empty"))
    else Pass
  }

  /** The name a comparator sees. */
  function NameOf(a: Tables.AuthorRow): string {
    if a.name.Some? then a.name.value else ""
  }

  /** The comparator of `getAuthorsSortedByName`. */
  function ByName(): (Tables.AuthorRow, Tables.AuthorRow) -> int {
    (a: Tables.AuthorRow, b: Tables.AuthorRow) => Text.CompareIgnoreCase(NameOf(a), NameOf(b))
  }

  lemma ByNamePreorder()
    ensures Sorting.TotalPreorder(ByName())
  {
    forall a, b ensures ByName()(a, b) <= 0 || ByName()(b, a) <= 0 {
      Text.CompareIgnoreCaseAntisymmetric(NameOf(a), NameOf(b));
    }
    forall a, b, c | ByName()(a, b) <= 0 && ByName()(b, c) <= 0 ensures ByName()(a, c) <= 0 {
      Text.CompareIgnoreCaseTransitive(NameOf(a), NameOf(b), NameOf(c));
    }
  }

  class AuthorService {
    const authorRepository: AuthorStore.AuthorRepository

    constructor (authorRepository: AuthorStore.AuthorRepository)
      requires authorRepository.db.Valid()
      ensures this.authorRepository == authorRepository
      ensures Valid()
    {
      this.authorRepository := authorRepository;
    }

    predicate Valid()
      reads authorRepository.db
    {
      authorRepository.db.Valid()
    }

    /** `createAuthor`: the checks of `CreateDecision`; the author is saved,
        once, only when they all pass. */
    method CreateAuthor(author: Authors.Author) returns (res: Outcome<Error>)
      requires Valid()
      modifies authorRepository.db`authors, authorRepository.db`nextAuthorId, author`id
      ensures Valid()
      ensures res == CreateDecision(old(author.Data()), old(authorRepository.db.authors))
      ensures authorRepository.db.authors ==
        if res.Pass? then old(authorRepository.db.authors) + [old(author.Data()).(id := old(authorRepository.db.nextAuthorId))]
        else old(authorRepository.db.authors)
      ensures res.Fail? ==> author.id == old(author.id)
      ensures res.Pass? ==> author.id == old(authorRepository.db.nextAuthorId)
      ensures authorRepository.db.nextAuthorId ==
        if res.Pass? then old(authorRepository.db.nextAuthorId) + 1 else old(authorRepository.db.nextAuthorId)
    {
      var check := ValidateAuthor(author.Data());
      if check.Fail? {
        return check;
      }
      var existing := authorRepository.FindByName(author.name);
      if existing.Some? {
        return Fail(DuplicateResource("Author with name '" + Text.Show(author.name) + "' already exists"));
      }
      authorRepository.Save(author);
      res := Pass;
    }

    /** `getAuthorById`: not found exactly when no author has that id. */
    function GetAuthorById(id: int): (r: Result<Tables.AuthorRow, Error>)
      reads authorRepository.db
      ensures r.Err? <==> !Tables.HasAuthor(authorRepository.db.authors, id)
      ensures r.Err? ==> r.error == AuthorNotFound(id)
      ensures r.Ok? ==> r.value in authorRepository.db.authors && r.value.id == id
    {
      match authorRepository.FindById(id)
      case None => Err(AuthorNotFound(id))
      case Some(a) => Ok(a)
    }

    /** `getAllAuthors`. */
    function GetAllAuthors(): (authors: seq<Tables.AuthorRow>)
      reads authorRepository.db
      ensures authors == authorRepository.db.authors
    {
      authorRepository.FindAll()
    }

    /** `getAuthorsSortedByName`: a stable sort of all authors by name,
        ignoring case. */
    method GetAuthorsSortedByName() returns (sorted: seq<Tables.AuthorRow>)
      ensures sorted == Sorting.StableSorted(authorRepository.db.authors, ByName())
      ensures multiset(sorted) == multiset(authorRepository.db.authors)
      ensures forall i, j :: 0 <= i < j < |sorted| ==> Text.CompareIgnoreCase(NameOf(sorted[i]), NameOf(sorted[j])) <= 0
      ensures Sorting.SameEquivalents(sorted, authorRepository.db.authors, ByName())
    {
      var authors := authorRepository.FindAll();
      ByNamePreorder();
      sorted := Sorting.SortBy(authors, ByName());
    }

    /** `updateAuthor`: the checks of `UpdateDecision`, then a full replace
        of the row with the author's id. */
    method UpdateAuthor(author: Authors.Author) returns (res: Outcome<Error>)
      requires Valid()
      modifies authorRepository.db`authors
      ensures Valid()
      ensures res == UpdateDecision(author.Data(), old(authorRepository.db.authors))
      ensures authorRepository.db.authors ==
        if res.Pass? then Tables.UpdateAuthorRows(old(authorRepository.db.authors), author.Data())
        else old(authorRepository.db.authors)
    {
      if !authorRepository.ExistsById(author.id) {
        return Fail(AuthorNotFound(author.id));
      }
      if !Validatable.IsNotEmpty(author.name) {
        return Fail(InvalidInput("Name cannot be empty"));
      }
      authorRepository.Update(author);
      res := Pass;
    }

    /** `deleteAuthor`: a missing id is reported and nothing changes; a
        database failure of the delete (the foreign key, while books
        reference the author) is reported as invalid input. */
    method DeleteAuthor(id: int) returns (res: Outcome<Error>)
      requires Valid()
      modifies authorRepository.db`authors
      ensures Valid()
      ensures res ==
        if !Tables.HasAuthor(old(authorRepository.db.authors), id) then Fail(AuthorNotFound(id))
        else if Tables.Referenced(authorRepository.db.books, id) then Fail(InvalidInput(AuthorStore.ReferencedMessage))
        else Pass
      ensures authorRepository.db.authors ==
        if res.Pass? then Tables.DeleteAuthorRows(old(authorRepository.db.authors), id)
        else old(authorRepository.db.authors)
      ensures res.Pass? ==> !Tables.HasAuthor(authorRepository.db.authors, id)
    {
      if !authorRepository.ExistsById(id) {
        return Fail(AuthorNotFound(id));
      }
      var outcome := authorRepository.DeleteById(id);
      match outcome {
        case Pass =>
          res := Pass;
        case Fail(e) =>
          if e.DbFailure? {
            res := Fail(InvalidInput(AuthorStore.ReferencedMessage));
          } else {
            res := Fail(e);
          }
      }
    }
  }
}
