/** An author of the catalogue, and the value its fields hold at one moment. */
module Authors {
  import opened Common
  import Validatable

  /** The fields of an author, as stored in the `authors` table. */
  datatype AuthorData = AuthorData(id: int, name: Option<string>, birthYear: int, nationality: Option<string>)

  /** `model.Author`: the constructor stores its arguments unchecked; every
      setter checks its argument and, on rejection, throws without changing anything. */
  class Author {
    var id: int
    var name: Option<string>
    var birthYear: int
    var nationality: Option<string>

    /** The current field values. */
    function Data(): AuthorData
      reads this
    {
      AuthorData(id, name, birthYear, nationality)
    }

    constructor (id: int, name: Option<string>, birthYear: int, nationality: Option<string>)
      ensures Data() == AuthorData(id, name, birthYear, nationality)
    {
      this.id := id;
      this.name := name;
      this.birthYear := birthYear;
      this.nationality := nationality;
    }

    /** A non-positive id (such as a missing generated key) is ignored. */
    method SetId(id: int)
      modifies this`id
      ensures this.id == if Validatable.IsPositive(id) then id else old(this.id)
    {
      if id > 0 {
        this.id := id;
      }
    }

    method SetName(name: Option<string>) returns (r: Outcome<string>)
      modifies this`name
      ensures r == if Validatable.IsNotEmpty(name) then Pass else Fail("Name cannot be empty.")
      ensures this.name == if r.Pass? then name else old(this.name)
    {
      if !Validatable.IsNotEmpty(name) {
        return Fail("Name cannot be empty.");
      }
      this.name := name;
      r := Pass;
    }

    method SetBirthYear(birthYear: int) returns (r: Outcome<string>)
      modifies this`birthYear
      ensures r == if Validatable.InSetterYearRange(birthYear) then Pass else Fail("Invalid year.")
      ensures this.birthYear == if r.Pass? then birthYear else old(this.birthYear)
    {
      if birthYear < 0 || birthYear > Validatable.MaxYear {
        return Fail("Invalid year.");
      }
      this.birthYear := birthYear;
      r := Pass;
    }

    method SetNationality(nationality: Option<string>) returns (r: Outcome<string>)
      modifies this`nationality
      ensures r == if Validatable.IsNotEmpty(nationality) then Pass else Fail("Nationality cannot be empty.")
      ensures this.nationality == if r.Pass? then nationality else old(this.nationality)
    {
      if !Validatable.IsNotEmpty(nationality) {
        return Fail("Nationality cannot be empty.");
      }
      this.nationality := nationality;
      r := Pass;
    }
  }
}
