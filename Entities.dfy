/**
 * The two entities of the catalog. Author and Course are objects whose
 * fields the repository assigns in place (identifiers, the foreign key);
 * AuthorRow and CourseRow are the values a row of the store holds.
 */
module Entities {
  import opened Text
  import Helpers

  /** A Guid; 0 plays the part of Guid.Empty. */
  type Guid = nat

  const EmptyGuid: Guid := 0

  datatype AuthorRow = AuthorRow(
    id: Guid,
    firstName: string,
    lastName: string,
    dateOfBirth: Helpers.DateTimeOffset,
    mainCategory: string)

  datatype CourseRow = CourseRow(
    id: Guid,
    authorId: Guid,
    title: string,
    description: Option<string>)

  class Course {
    var id: Guid
    var authorId: Guid
    var title: string
    var description: Option<string>

    /** A course as a request body maps to it: no identifier, no owner. */
    constructor (title: string, description: Option<string>)
      ensures id == EmptyGuid && authorId == EmptyGuid
      ensures this.title == title && this.description == description
    {
      id := EmptyGuid;
      authorId := EmptyGuid;
      this.title := title;
      this.description := description;
    }

    /** The values the store keeps for this course. */
    function Row(): CourseRow
      reads this
    {
      CourseRow(id, authorId, title, description)
    }
  }

  class Author {
    var id: Guid
    var firstName: string
    var lastName: string
    var dateOfBirth: Helpers.DateTimeOffset
    var mainCategory: string
    var courses: seq<Course>

    /** An author as a creation request maps to it, with the courses it is
        created with and no identifier yet. */
    constructor (firstName: string, lastName: string, dateOfBirth: Helpers.DateTimeOffset,
                 mainCategory: string, courses: seq<Course>)
      ensures id == EmptyGuid
      ensures this.firstName == firstName && this.lastName == lastName
      ensures this.dateOfBirth == dateOfBirth && this.mainCategory == mainCategory
      ensures this.courses == courses
    {
      id := EmptyGuid;
      this.firstName := firstName;
      this.lastName := lastName;
      this.dateOfBirth := dateOfBirth;
      this.mainCategory := mainCategory;
      this.courses := courses;
    }

    /** The values the store keeps for this author (its courses are rows of
        their own). */
    function Row(): AuthorRow
      reads this
    {
      AuthorRow(id, firstName, lastName, dateOfBirth, mainCategory)
    }
  }

  /** The rows of a sequence of course objects, in order. */
  function CourseRows(cs: seq<Course>): (rows: seq<CourseRow>)
    reads cs
    ensures |rows| == |cs|
    ensures forall k :: 0 <= k < |cs| ==> rows[k] == cs[k].Row()
  {
    if cs == [] then [] else [cs[0].Row()] + CourseRows(cs[1..])
  }

  /** The objects of s, each once, in the order of their first occurrence:
      a change tracker holds every entity once, however often it is listed. */
  function Distinct<T(==)>(s: seq<T>): (r: seq<T>)
    ensures forall k :: 0 <= k < |s| ==> s[k] in r
    ensures forall k :: 0 <= k < |r| ==> r[k] in s
    ensures forall i, j :: 0 <= i < j < |r| ==> r[i] != r[j]
  {
    if s == [] then []
    else
      var r := Distinct(s[..|s| - 1]);
      var last := s[|s| - 1];
      assert forall k :: 0 <= k < |s| - 1 ==> s[k] == s[..|s| - 1][k];
      if last in r then r else r + [last]
  }
}
