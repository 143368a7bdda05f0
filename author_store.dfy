/** The author store (`AuthorRepository`): the rows of the `authors` table
    read and written by key, by exact name and by nationality. Every store
    failure comes back as a `DatabaseOperationException`. */
module AuthorStore {
  import opened Common
  import Seqs
  import Text
  import Authors
  import Tables

  const ReferencedMessage := "Cannot delete author: books reference this author"
  const DeleteFailedMessage := "Failed to delete author"

  /** The delete's error handler names the foreign-key case by looking for
      "foreign key" or "violates" in the store's message. */
  function DeleteFailure(message: string): (e: Error)
    ensures e.DbFailure?
    ensures e.message == ReferencedMessage <==> Text.Contains(message, "foreign key") || Text.Contains(message, "violates")
  {
    if Text.Contains(message, "foreign key") || Text.Contains(message, "violates") then DbFailure(ReferencedMessage)
    else DbFailure(DeleteFailedMessage)
  }

  /** The store's foreign-key error is the one the handler recognises. */
  lemma ForeignKeyViolationRecognised()
    ensures DeleteFailure(Tables.ForeignKeyViolation) == DbFailure(ReferencedMessage)
  {
    assert "violates" <= Tables.ForeignKeyViolation;
  }

  /** The first row whose name equals `name` exactly; a null name matches
      no row, as `name = NULL` is never true. */
  function FindName(authors: seq<Tables.AuthorRow>, name: Option<string>): (r: Option<Tables.AuthorRow>)
    ensures r.None? <==> name.None? || forall a :: a in authors ==> a.name != name
    ensures r.Some? ==> r.value in authors && r.value.name == name
  {
    Seqs.First(authors, (a: Tables.AuthorRow) => name.Some? && a.name == name)
  }

  /** The author stored under `id`, if any; keys are distinct, so it is the only one. */
  function FindAuthor(authors: seq<Tables.AuthorRow>, id: int): (r: Option<Tables.AuthorRow>)
    ensures r.Some? <==> Tables.HasAuthor(authors, id)
    ensures r.Some? ==> r.value in authors && r.value.id == id
  {
    Seqs.First(authors, (a: Tables.AuthorRow) => a.id == id)
  }

  class AuthorRepository {
    const db: Tables.Database

    constructor (db: Tables.Database)
      ensures this.db == db
    {
      this.db := db;
    }

    /** `findById`: the author stored under `id`, if any. */
    function FindById(id: int): (r: Option<Tables.AuthorRow>)
      reads db
      ensures r.Some? <==> Tables.HasAuthor(db.authors, id)
      ensures r.Some? ==> r.value in db.authors && r.value.id == id
    {
      FindAuthor(db.authors, id)
    }

    /** `existsById`: a `COUNT(*)` above zero. */
    function ExistsById(id: int): (b: bool)
      reads db
      ensures b <==> FindById(id).Some?
    {
      Tables.HasAuthor(db.authors, id)
    }

    /** `findByName`: the first author whose name equals `name` exactly; a
        null name matches no row, as `name = NULL` is never true. */
    function FindByName(name: Option<string>): (r: Option<Tables.AuthorRow>)
      reads db
      ensures r.None? <==> name.None? || forall a :: a in db.authors ==> a.name != name
      ensures r.Some? ==> r.value in db.authors && r.value.name == name
    {
      FindName(db.authors, name)
    }

    /** `findByNationality`: the authors of that nationality, in table order. */
    function FindByNationality(nationality: Option<string>): (r: seq<Tables.AuthorRow>)
      reads db
      ensures forall a :: a in r ==> a in db.authors && nationality.Some? && a.nationality == nationality
      ensures forall a :: a in db.authors && nationality.Some? && a.nationality == nationality ==> a in r
    {
      Seqs.Filter(db.authors, (a: Tables.AuthorRow) => nationality.Some? && a.nationality == nationality)
    }

    /** `findAll`: every author, in table order. */
    function FindAll(): seq<Tables.AuthorRow>
      reads db
    {
      db.authors
    }

    /** `save`: inserts the author's fields and back-fills the generated key
        into the author (the key is positive, so `setId` takes it). */
    method Save(author: Authors.Author)
      requires db.Valid()
      modifies db`authors, db`nextAuthorId, author`id
      ensures db.Valid()
      ensures author.Data() == old(author.Data()).(id := old(db.nextAuthorId))
      ensures db.authors == old(db.authors) + [author.Data()]
      ensures db.nextAuthorId == old(db.nextAuthorId) + 1
    {
      var key := db.InsertAuthor(author.name, author.birthYear, author.nationality);
      author.SetId(key);
    }

    /** `update`: replaces name, birth year and nationality of the row with
        the author's id; with no such row nothing changes. */
    method Update(author: Authors.Author)
      requires db.Valid()
      modifies db`authors
      ensures db.Valid()
      ensures db.authors == Tables.UpdateAuthorRows(old(db.authors), author.Data())
    {
      db.UpdateAuthor(author.Data());
    }

    /** `deleteById`: refused by the foreign key while some book references
        the author; the refusal is reported as a database failure. */
    method DeleteById(id: int) returns (r: Outcome<Error>)
      requires db.Valid()
      modifies db`authors
      ensures db.Valid()
      ensures r == if Tables.Referenced(db.books, id) then Fail(DbFailure(ReferencedMessage)) else Pass
      ensures db.authors == if r.Pass? then Tables.DeleteAuthorRows(old(db.authors), id) else old(db.authors)
    {
      var outcome := db.DeleteAuthor(id);
      match outcome {
        case Pass =>
          r := Pass;
        case Fail(message) =>
          ForeignKeyViolationRecognised();
          r := Fail(DeleteFailure(message));
      }
    }
  }
}
