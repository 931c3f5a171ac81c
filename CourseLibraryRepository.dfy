/**
 * The data-access repository of the catalog. Queries are pure functions of
 * the committed rows; the class CourseLibraryRepository holds those rows and
 * the changes staged since the last Save, and its mutators assign
 * identifiers, force the foreign key and stage insertions and removals.
 */
module Services {
  import opened Text
  import opened Ordering
  import opened Entities

  /** ArgumentNullException, with the name of the offending parameter. */
  datatype ArgumentError = ArgumentNull(paramName: string)

  datatype Result<+T> = Ok(value: T) | Err(error: ArgumentError)

  /** The outcome of an operation that returns nothing. */
  datatype Outcome = Done | Fail(error: ArgumentError)

  /** Filter and paging intent of GetAuthors; null strings are None. */
  datatype AuthorsResourceParameters = AuthorsResourceParameters(
    mainCategory: Option<string>,
    searchQuery: Option<string>,
    pageNumber: int,
    pageSize: int)

  const Int32Max: int := 0x7fff_ffff

  function LastName(a: AuthorRow): string { a.lastName }

  function Title(c: CourseRow): string { c.title }

  ghost predicate DistinctIds(rows: seq<AuthorRow>) {
    forall i, j :: 0 <= i < j < |rows| ==> rows[i].id != rows[j].id
  }

  function AuthorIdSet(rows: seq<AuthorRow>): set<Guid> {
    set a | a in rows :: a.id
  }

  // ----- single lookups -----

  /** FirstOrDefault(a => a.Id == id) over the authors. */
  function FindAuthor(rows: seq<AuthorRow>, id: Guid): (r: Option<AuthorRow>)
    ensures r.Some? ==> r.value in rows && r.value.id == id
    ensures r.None? <==> id !in AuthorIdSet(rows)
  {
    if rows == [] then None
    else if rows[0].id == id then Some(rows[0])
    else
      assert rows == [rows[0]] + rows[1..];
      assert AuthorIdSet(rows) == {rows[0].id} + AuthorIdSet(rows[1..]);
      FindAuthor(rows[1..], id)
  }

  /** Of several authors with the id, FindAuthor returns the first. */
  lemma {:induction false} FindAuthorIsFirst(rows: seq<AuthorRow>, id: Guid, i: nat)
    requires i < |rows| && rows[i].id == id
    requires forall k :: 0 <= k < i ==> rows[k].id != id
    ensures FindAuthor(rows, id) == Some(rows[i])
  {
    if i > 0 {
      FindAuthorIsFirst(rows[1..], id, i - 1);
    }
  }

  /** Where(c => c.AuthorId == authorId && c.Id == courseId).FirstOrDefault(). */
  function FindCourse(rows: seq<CourseRow>, authorId: Guid, courseId: Guid): (r: Option<CourseRow>)
    ensures r.Some? ==> r.value in rows && r.value.authorId == authorId && r.value.id == courseId
    ensures r.None? <==> forall c :: c in rows ==> !(c.authorId == authorId && c.id == courseId)
  {
    if rows == [] then None
    else if rows[0].authorId == authorId && rows[0].id == courseId then Some(rows[0])
    else
      assert rows == [rows[0]] + rows[1..];
      FindCourse(rows[1..], authorId, courseId)
  }

  /** Of several courses with both ids, FindCourse returns the first. */
  lemma {:induction false} FindCourseIsFirst(rows: seq<CourseRow>, authorId: Guid, courseId: Guid, i: nat)
    requires i < |rows| && rows[i].authorId == authorId && rows[i].id == courseId
    requires forall k :: 0 <= k < i ==> !(rows[k].authorId == authorId && rows[k].id == courseId)
    ensures FindCourse(rows, authorId, courseId) == Some(rows[i])
  {
    if i > 0 {
      FindCourseIsFirst(rows[1..], authorId, courseId, i - 1);
    }
  }

  /** An author is found exactly when some stored author has the id. */
  lemma FoundIffExists(rows: seq<AuthorRow>, id: Guid)
    ensures FindAuthor(rows, id).Some? <==> exists a :: a in rows && a.id == id
  {
    if FindAuthor(rows, id).None? {
      assert id !in AuthorIdSet(rows);
    }
  }

  // ----- batch lookup -----

  /** Where(a => ids.Contains(a.Id)).OrderBy(a => a.LastName): the stored
      authors whose id is listed, each as often as it is stored, sorted by
      last name. (The OrderBy on FirstName before it is overridden.) */
  function AuthorsWithIds(rows: seq<AuthorRow>, ids: seq<Guid>): (r: seq<AuthorRow>)
    ensures SortedBy(r, LastName)
    ensures forall a :: multiset(r)[a] == if a.id in ids then multiset(rows)[a] else 0
    ensures |r| == |Filter(rows, (a: AuthorRow) => a.id in ids)|
  {
    FilterCount(rows, (a: AuthorRow) => a.id in ids);
    SortBy(Filter(rows, (a: AuthorRow) => a.id in ids), LastName)
  }

  /** The tail of a sequence with distinct ids has distinct ids and none
      of them is the head's. */
  lemma DistinctIdsTail(rows: seq<AuthorRow>)
    requires DistinctIds(rows) && rows != []
    ensures DistinctIds(rows[1..])
    ensures rows[0].id !in AuthorIdSet(rows[1..])
  {
    var rest := rows[1..];
    forall i, j | 0 <= i < j < |rest| ensures rest[i].id != rest[j].id {
      assert rest[i] == rows[i + 1] && rest[j] == rows[j + 1];
    }
  }

  /** With distinct stored ids, the authors whose id lies in S are as many as
      the ids of S that are stored. */
  lemma {:induction false} MatchCount(rows: seq<AuthorRow>, S: set<Guid>)
    requires DistinctIds(rows)
    ensures |Filter(rows, (a: AuthorRow) => a.id in S)| == |S * AuthorIdSet(rows)|
  {
    if rows == [] {
      assert S * AuthorIdSet(rows) == {};
    } else {
      var a, rest := rows[0], rows[1..];
      DistinctIdsTail(rows);
      assert rows == [a] + rest;
      AuthorIdSetCons(rows);
      if a.id in S {
        var S' := S - {a.id};
        forall x | x in rest ensures (x.id in S) == (x.id in S') {
          assert x.id in AuthorIdSet(rest);
        }
        FilterCongruent(rest, (a: AuthorRow) => a.id in S, (a: AuthorRow) => a.id in S');
        MatchCount(rest, S');
        assert |Filter(rows, (a: AuthorRow) => a.id in S)| == 1 + |Filter(rest, (a: AuthorRow) => a.id in S')|;
        IntersectionStep(S, AuthorIdSet(rest), a.id);
      } else {
        MatchCount(rest, S);
        assert S * AuthorIdSet(rows) == S * AuthorIdSet(rest);
      }
    }
  }

  lemma AuthorIdSetCons(rows: seq<AuthorRow>)
    requires rows != []
    ensures AuthorIdSet(rows) == {rows[0].id} + AuthorIdSet(rows[1..])
  {
    assert rows == [rows[0]] + rows[1..];
  }

  lemma IntersectionStep(S: set<Guid>, I: set<Guid>, g: Guid)
    requires g in S && g !in I
    ensures |S * ({g} + I)| == 1 + |(S - {g}) * I|
  {
    assert S * ({g} + I) == {g} + (S - {g}) * I;
  }

  function IdSet(ids: seq<Guid>): set<Guid> {
    set g | g in ids
  }

  predicate NoDuplicates(ids: seq<Guid>) {
    forall i, j :: 0 <= i < j < |ids| ==> ids[i] != ids[j]
  }

  /** A sequence has at least as many elements as its set of elements. */
  lemma {:induction false} SetOfSeqAtMost(ids: seq<Guid>)
    ensures |IdSet(ids)| <= |ids|
  {
    if ids != [] {
      SetOfSeqAtMost(ids[1..]);
      assert ids == [ids[0]] + ids[1..];
      assert IdSet(ids) == IdSet(ids[1..]) + {ids[0]};
    }
  }

  /** Without repetitions the two sizes agree. */
  lemma {:induction false} SetOfDistinctSeq(ids: seq<Guid>)
    requires NoDuplicates(ids)
    ensures |IdSet(ids)| == |ids|
  {
    if ids != [] {
      var x, rest := ids[0], ids[1..];
      assert ids == [x] + rest;
      forall i, j | 0 <= i < j < |rest| ensures rest[i] != rest[j] {
        assert rest[i] == ids[i + 1] && rest[j] == ids[j + 1];
      }
      SetOfDistinctSeq(rest);
      assert x !in rest;
      assert IdSet(ids) == IdSet(rest) + {x};
    }
  }

  /** With a repetition the set is strictly smaller. */
  lemma SetOfSeqWithRepeat(ids: seq<Guid>)
    requires !NoDuplicates(ids)
    ensures |IdSet(ids)| < |ids|
  {
    var i, j :| 0 <= i < j < |ids| && ids[i] == ids[j];
    var shorter := ids[..j] + ids[j + 1..];
    assert ids == ids[..j] + [ids[j]] + ids[j + 1..];
    assert ids[i] == shorter[i];
    assert IdSet(ids) == IdSet(shorter);
    SetOfSeqAtMost(shorter);
  }

  /** The stored part of a set of ids is no larger than the set, and as
      large exactly when every id of the set is stored. */
  lemma IntersectionSize(S: set<Guid>, I: set<Guid>)
    ensures |S * I| <= |S|
    ensures |S * I| == |S| <==> S <= I
  {
    assert S == (S * I) + (S - I) && (S * I) * (S - I) == {};
    if !(S <= I) {
      var g :| g in S && g !in I;
      assert g in S - I;
    }
  }

  /** The count comparison of the author-collection endpoint: the batch
      lookup returns as many authors as ids were asked for exactly when no
      id is repeated and every id is stored. A repeated id therefore fails
      the comparison even when every author exists. */
  lemma CountCheckPassesIff(rows: seq<AuthorRow>, ids: seq<Guid>)
    requires DistinctIds(rows)
    ensures |AuthorsWithIds(rows, ids)| <= |IdSet(ids)| <= |ids|
    ensures |AuthorsWithIds(rows, ids)| == |ids|
        <==> NoDuplicates(ids) && forall g :: g in ids ==> g in AuthorIdSet(rows)
  {
    var S := IdSet(ids);
    FilterCongruent(rows, (a: AuthorRow) => a.id in ids, (a: AuthorRow) => a.id in S);
    MatchCount(rows, S);
    SetOfSeqAtMost(ids);
    if NoDuplicates(ids) { SetOfDistinctSeq(ids); } else { SetOfSeqWithRepeat(ids); }
    IntersectionSize(S, AuthorIdSet(rows));
  }

  // ----- per-author courses -----

  /** Where(c => c.AuthorId == authorId).OrderBy(c => c.Title). */
  function CoursesOf(rows: seq<CourseRow>, authorId: Guid): (r: seq<CourseRow>)
    ensures SortedBy(r, Title)
    ensures forall c :: multiset(r)[c] == if c.authorId == authorId then multiset(rows)[c] else 0
  {
    FilterCount(rows, (c: CourseRow) => c.authorId == authorId);
    SortBy(Filter(rows, (c: CourseRow) => c.authorId == authorId), Title)
  }

  // ----- filtering and paging -----

  /** The category filter: passes when no category is asked for, else the
      author's category must equal the trimmed value. */
  predicate MatchesCategory(mainCategory: Option<string>, a: AuthorRow) {
    IsNullOrWhiteSpace(mainCategory) || a.mainCategory == Trim(mainCategory.value)
  }

  /** The search filter: passes when no query is given, else the trimmed
      query must occur in the category, the first name or the last name. */
  predicate MatchesSearch(searchQuery: Option<string>, a: AuthorRow) {
    || IsNullOrWhiteSpace(searchQuery)
    || Contains(a.mainCategory, Trim(searchQuery.value))
    || Contains(a.firstName, Trim(searchQuery.value))
    || Contains(a.lastName, Trim(searchQuery.value))
  }

  predicate PassesFilters(mainCategory: Option<string>, searchQuery: Option<string>, a: AuthorRow) {
    MatchesCategory(mainCategory, a) && MatchesSearch(searchQuery, a)
  }

  /** The category Where clause, applied only when the category is not
      blank. */
  function ByCategory(rows: seq<AuthorRow>, mainCategory: Option<string>): (r: seq<AuthorRow>)
    ensures forall a :: multiset(r)[a] == if MatchesCategory(mainCategory, a) then multiset(rows)[a] else 0
  {
    if IsNullOrWhiteSpace(mainCategory) then rows
    else
      var category := Trim(mainCategory.value);
      FilterCount(rows, (a: AuthorRow) => a.mainCategory == category);
      Filter(rows, (a: AuthorRow) => a.mainCategory == category)
  }

  /** The search Where clause, applied only when the query is not blank. */
  function BySearch(rows: seq<AuthorRow>, searchQuery: Option<string>): (r: seq<AuthorRow>)
    ensures forall a :: multiset(r)[a] == if MatchesSearch(searchQuery, a) then multiset(rows)[a] else 0
  {
    if IsNullOrWhiteSpace(searchQuery) then rows
    else
      var query := Trim(searchQuery.value);
      var matches := (a: AuthorRow) =>
        Contains(a.mainCategory, query) || Contains(a.firstName, query) || Contains(a.lastName, query);
      FilterCount(rows, matches);
      Filter(rows, matches)
  }

  /** Both Where clauses in turn: an author is kept, as often as it is
      stored, exactly when both filters pass. */
  function FilterAuthors(rows: seq<AuthorRow>, mainCategory: Option<string>, searchQuery: Option<string>)
    : (r: seq<AuthorRow>)
    ensures forall a :: multiset(r)[a] == if PassesFilters(mainCategory, searchQuery, a) then multiset(rows)[a] else 0
  {
    BySearch(ByCategory(rows, mainCategory), searchQuery)
  }

  /** Page numbers start at 1, sizes are not negative, and the number of
      skipped rows fits a 32-bit int. */
  predicate PagingInRange(pageNumber: int, pageSize: int) {
    && 1 <= pageNumber <= Int32Max
    && 0 <= pageSize <= Int32Max
    && pageSize * (pageNumber - 1) <= Int32Max
  }

  /** Skip(skip).Take(take): the elements from offset skip on, in order,
      at most take of them, fewer only when the sequence ends first. */
  function SkipTake<T>(s: seq<T>, skip: nat, take: nat): (r: seq<T>)
    ensures |r| <= take
    ensures |r| < take ==> skip + |r| >= |s|
    ensures forall k :: 0 <= k < |r| ==> skip + k < |s| && r[k] == s[skip + k]
  {
    var rest := if skip <= |s| then s[skip..] else [];
    if take <= |rest| then rest[..take] else rest
  }

  /** The number of rows before page pageNumber. */
  function Offset(pageNumber: int, pageSize: int): (skip: nat)
    requires PagingInRange(pageNumber, pageSize)
    ensures skip <= Int32Max
  {
    pageSize * (pageNumber - 1)
  }

  /** Every element is on exactly the page its position says: element k is
      entry k % size of page k / size + 1. */
  lemma EveryElementOnItsPage<T>(s: seq<T>, pageSize: int, k: int)
    requires 0 < pageSize && 0 <= k < |s|
    requires PagingInRange(k / pageSize + 1, pageSize)
    ensures var p := SkipTake(s, Offset(k / pageSize + 1, pageSize), pageSize);
      k % pageSize < |p| && p[k % pageSize] == s[k]
  {
    assert Offset(k / pageSize + 1, pageSize) + k % pageSize == k;
  }

  /** GetAuthors(parameters) after its null check: both filters, then the
      page. */
  function SearchAuthors(rows: seq<AuthorRow>, parameters: AuthorsResourceParameters): (r: seq<AuthorRow>)
    requires PagingInRange(parameters.pageNumber, parameters.pageSize)
  {
    SkipTake(FilterAuthors(rows, parameters.mainCategory, parameters.searchQuery),
             Offset(parameters.pageNumber, parameters.pageSize), parameters.pageSize)
  }

  /** What a page of the search holds: at most pageSize authors, each kept
      by both filters, taken in filter order from the page's offset. */
  lemma SearchPageContents(rows: seq<AuthorRow>, parameters: AuthorsResourceParameters)
    requires PagingInRange(parameters.pageNumber, parameters.pageSize)
    ensures var r := SearchAuthors(rows, parameters);
      && |r| <= parameters.pageSize
      && forall a :: a in r ==> a in rows && MatchesCategory(parameters.mainCategory, a)
                                           && MatchesSearch(parameters.searchQuery, a)
  {
    var f := FilterAuthors(rows, parameters.mainCategory, parameters.searchQuery);
    var r := SearchAuthors(rows, parameters);
    forall a | a in r
      ensures a in rows && MatchesCategory(parameters.mainCategory, a) && MatchesSearch(parameters.searchQuery, a)
    {
      var k :| 0 <= k < |r| && r[k] == a;
      assert a in f;
      assert multiset(f)[a] > 0;
    }
  }

  // ----- commit -----

  /** The authors after SaveChanges: the committed and the staged ones,
      except those whose id is staged for removal. */
  function CommitAuthors(rows: seq<AuthorRow>, added: seq<AuthorRow>, removed: seq<Guid>): seq<AuthorRow>
  {
    Filter(rows + added, (a: AuthorRow) => a.id !in removed)
  }

  /** The courses after SaveChanges, likewise. */
  function CommitCourses(rows: seq<CourseRow>, added: seq<CourseRow>, removed: seq<Guid>): seq<CourseRow>
  {
    Filter(rows + added, (c: CourseRow) => c.id !in removed)
  }

  /** A commit keeps every stored and every staged author as often as it
      occurs, unless its id is staged for removal, and keeps nothing else. */
  lemma CommittedAuthorCount(rows: seq<AuthorRow>, added: seq<AuthorRow>, removed: seq<Guid>)
    ensures forall a :: multiset(CommitAuthors(rows, added, removed))[a]
                     == if a.id in removed then 0 else multiset(rows)[a] + multiset(added)[a]
  {
    FilterCount(rows + added, (a: AuthorRow) => a.id !in removed);
  }

  /** The same for courses. */
  lemma CommittedCourseCount(rows: seq<CourseRow>, added: seq<CourseRow>, removed: seq<Guid>)
    ensures forall c :: multiset(CommitCourses(rows, added, removed))[c]
                     == if c.id in removed then 0 else multiset(rows)[c] + multiset(added)[c]
  {
    FilterCount(rows + added, (c: CourseRow) => c.id !in removed);
  }

  /** After a commit no author with a removed id is left. */
  lemma RemovedAuthorIsGone(rows: seq<AuthorRow>, added: seq<AuthorRow>, removed: seq<Guid>, id: Guid)
    requires id in removed
    ensures FindAuthor(CommitAuthors(rows, added, removed), id) == None
  {
    var r := CommitAuthors(rows, added, removed);
    CommittedAuthorCount(rows, added, removed);
    forall a | a in r ensures a.id != id {
      assert multiset(r)[a] > 0;
    }
  }

  /** After a commit a staged author whose id is not removed is found by its
      id, and with distinct ids it is that very author. */
  lemma AddedAuthorIsFound(rows: seq<AuthorRow>, added: seq<AuthorRow>, removed: seq<Guid>, a: AuthorRow)
    requires a in added && a.id !in removed
    requires DistinctIds(rows + added)
    ensures FindAuthor(CommitAuthors(rows, added, removed), a.id) == Some(a)
  {
    var r := CommitAuthors(rows, added, removed);
    CommittedAuthorCount(rows, added, removed);
    assert multiset(added)[a] > 0;
    assert a in r;
    var b := FindAuthor(r, a.id).value;
    assert b in rows + added by { assert multiset(r)[b] > 0; }
    var i :| 0 <= i < |rows + added| && (rows + added)[i] == a;
    var j :| 0 <= j < |rows + added| && (rows + added)[j] == b;
  }

  /** Committing keeps author ids distinct. */
  lemma {:induction false} FilterKeepsDistinctIds(rows: seq<AuthorRow>, p: AuthorRow -> bool)
    requires DistinctIds(rows)
    ensures DistinctIds(Filter(rows, p))
  {
    if rows != [] {
      var rest := rows[1..];
      assert DistinctIds(rest) by {
        forall i, j | 0 <= i < j < |rest| ensures rest[i].id != rest[j].id {
          assert rest[i] == rows[i + 1] && rest[j] == rows[j + 1];
        }
      }
      FilterKeepsDistinctIds(rest, p);
      var f := Filter(rest, p);
      if p(rows[0]) {
        var r := [rows[0]] + f;
        forall i, j | 0 <= i < j < |r| ensures r[i].id != r[j].id {
          if i == 0 {
            assert r[j] in rest;
            var k :| 0 <= k < |rest| && rest[k] == r[j];
            assert rows[k + 1] == r[j];
          } else {
            assert r[i] == f[i - 1] && r[j] == f[j - 1];
          }
        }
      }
    }
  }

  /** A commit of rows with distinct ids leaves rows with distinct ids. */
  lemma CommitKeepsDistinctIds(rows: seq<AuthorRow>, added: seq<AuthorRow>, removed: seq<Guid>)
    requires DistinctIds(rows + added)
    ensures DistinctIds(CommitAuthors(rows, added, removed))
  {
    FilterKeepsDistinctIds(rows + added, (a: AuthorRow) => a.id !in removed);
  }

  // ----- identifiers -----

  function AuthorIds(rows: seq<AuthorRow>): (ids: seq<Guid>)
    ensures |ids| == |rows| && forall k :: 0 <= k < |rows| ==> ids[k] == rows[k].id
  {
    seq(|rows|, k requires 0 <= k < |rows| => rows[k].id)
  }

  function CourseIds(rows: seq<CourseRow>): seq<Guid>
  {
    seq(|rows|, k requires 0 <= k < |rows| => rows[k].id)
  }

  function MaxId(ids: seq<Guid>): (m: Guid)
    ensures forall k :: 0 <= k < |ids| ==> ids[k] <= m
  {
    if ids == [] then 0
    else
      var m := MaxId(ids[1..]);
      assert forall k :: 1 <= k < |ids| ==> ids[k] == ids[1..][k - 1];
      if ids[0] > m then ids[0] else m
  }

  /** Guid.NewGuid: an identifier that is not Guid.Empty and not among the
      identifiers in use. */
  function NewGuid(inUse: seq<Guid>): (g: Guid)
    ensures g != EmptyGuid && g !in inUse
  {
    MaxId(inUse) + 1
  }

  // ----- the repository -----

  class CourseLibraryRepository {
    /** The committed rows of the store. */
    var authors: seq<AuthorRow>
    var courses: seq<CourseRow>
    /** Changes staged since the last Save: rows to insert, ids to remove. */
    var addedAuthors: seq<AuthorRow>
    var addedCourses: seq<CourseRow>
    var removedAuthorIds: seq<Guid>
    var removedCourseIds: seq<Guid>

    /** Author ids are keys: no two stored or staged authors share one. */
    ghost predicate Valid()
      reads this
    {
      DistinctIds(authors + addedAuthors)
    }

    /** A repository over a store holding the given rows, nothing staged. */
    constructor (authors: seq<AuthorRow>, courses: seq<CourseRow>)
      requires DistinctIds(authors)
      ensures Valid()
      ensures this.authors == authors && this.courses == courses
      ensures addedAuthors == [] && addedCourses == []
      ensures removedAuthorIds == [] && removedCourseIds == []
    {
      this.authors := authors;
      this.courses := courses;
      addedAuthors, addedCourses := [], [];
      removedAuthorIds, removedCourseIds := [], [];
      assert authors + [] == authors;
    }

    /** Every identifier the unit of work knows of: those of the stored and
        staged authors and courses, and those staged for removal. */
    function IdsInUse(): seq<Guid>
      reads this
    {
      AuthorIds(authors + addedAuthors) + CourseIds(courses + addedCourses)
        + removedAuthorIds + removedCourseIds
    }

    /** AddAuthor: fails on null; otherwise gives the author and each of its
        courses a fresh identifier, links each course to the author, and
        stages the author and its courses (each course object once) for
        insertion. */
    method AddAuthor(author: Author?) returns (outcome: Outcome)
      requires Valid()
      modifies this, author, if author == null then {} else set c | c in author.courses
      ensures Valid()
      ensures author == null ==> outcome == Fail(ArgumentNull("author")) && unchanged(this)
      ensures author != null ==> outcome == Done
      ensures author != null ==>
        && author.id != EmptyGuid && author.id !in old(IdsInUse())
        && author.courses == old(author.courses)
        && author.firstName == old(author.firstName) && author.lastName == old(author.lastName)
        && author.dateOfBirth == old(author.dateOfBirth) && author.mainCategory == old(author.mainCategory)
      ensures author != null ==> forall c :: c in author.courses ==>
        && c.id != EmptyGuid && c.id !in old(IdsInUse()) && c.id != author.id
        && c.authorId == author.id
        && c.title == old(c.title) && c.description == old(c.description)
      ensures author != null ==> forall c, d :: c in author.courses && d in author.courses && c != d ==> c.id != d.id
      ensures author != null ==>
        && addedAuthors == old(addedAuthors) + [author.Row()]
        && addedCourses == old(addedCourses) + CourseRows(Distinct(author.courses))
        && authors == old(authors) && courses == old(courses)
        && removedAuthorIds == old(removedAuthorIds) && removedCourseIds == old(removedCourseIds)
    {
      if author == null {
        return Fail(ArgumentNull("author"));
      }
      var used := IdsInUse();
      IssueIdentifiers(author, used);
      var row, courseRows := author.Row(), CourseRows(Distinct(author.courses));
      KeepsDistinctIds(authors, addedAuthors, row);
      addedAuthors, addedCourses := addedAuthors + [row], addedCourses + courseRows;
      outcome := Done;
    }

    /** AddCourse: fails on an empty author id, then on a null course;
        otherwise overwrites the course's author id with the given one and
        stages the course, leaving its own id as it is. */
    method AddCourse(authorId: Guid, course: Course?) returns (outcome: Outcome)
      requires Valid()
      modifies this, course
      ensures Valid()
      ensures authorId == EmptyGuid ==> outcome == Fail(ArgumentNull("authorId")) && unchanged(this)
      ensures authorId != EmptyGuid && course == null ==> outcome == Fail(ArgumentNull("course")) && unchanged(this)
      ensures authorId != EmptyGuid && course != null ==>
        && outcome == Done
        && course.authorId == authorId
        && course.id == old(course.id) && course.title == old(course.title)
        && course.description == old(course.description)
        && addedCourses == old(addedCourses) + [course.Row()]
        && authors == old(authors) && courses == old(courses) && addedAuthors == old(addedAuthors)
        && removedAuthorIds == old(removedAuthorIds) && removedCourseIds == old(removedCourseIds)
    {
      if authorId == EmptyGuid {
        return Fail(ArgumentNull("authorId"));
      }
      if course == null {
        return Fail(ArgumentNull("course"));
      }
      course.authorId := authorId;
      addedCourses := addedCourses + [course.Row()];
      outcome := Done;
    }

    /** DeleteAuthor: fails on null; otherwise stages the author's removal. */
    method DeleteAuthor(author: Author?) returns (outcome: Outcome)
      requires Valid()
      modifies this
      ensures Valid()
      ensures author == null ==> outcome == Fail(ArgumentNull("author")) && unchanged(this)
      ensures author != null ==>
        && outcome == Done
        && removedAuthorIds == old(removedAuthorIds) + [author.id]
        && authors == old(authors) && courses == old(courses)
        && addedAuthors == old(addedAuthors) && addedCourses == old(addedCourses)
        && removedCourseIds == old(removedCourseIds)
    {
      if author == null {
        return Fail(ArgumentNull("author"));
      }
      removedAuthorIds := removedAuthorIds + [author.id];
      outcome := Done;
    }

    /** DeleteCourse: fails on null; otherwise stages the course's removal. */
    method DeleteCourse(course: Course?) returns (outcome: Outcome)
      requires Valid()
      modifies this
      ensures Valid()
      ensures course == null ==> outcome == Fail(ArgumentNull("course")) && unchanged(this)
      ensures course != null ==>
        && outcome == Done
        && removedCourseIds == old(removedCourseIds) + [course.id]
        && authors == old(authors) && courses == old(courses)
        && addedAuthors == old(addedAuthors) && addedCourses == old(addedCourses)
        && removedAuthorIds == old(removedAuthorIds)
    {
      if course == null {
        return Fail(ArgumentNull("course"));
      }
      removedCourseIds := removedCourseIds + [course.id];
      outcome := Done;
    }

    /** UpdateAuthor has no implementation: it changes nothing. */
    method UpdateAuthor(author: Author?)
      ensures unchanged(this) && (author != null ==> unchanged(author))
    {
    }

    /** UpdateCourse has no implementation: it changes nothing. */
    method UpdateCourse(course: Course?)
      ensures unchanged(this) && (course != null ==> unchanged(course))
    {
    }

    /** Save: commits every staged change and reports success, which is a
        non-negative count of written entries and therefore always holds. */
    method Save() returns (ok: bool)
      requires Valid()
      modifies this
      ensures Valid()
      ensures ok
      ensures authors == CommitAuthors(old(authors), old(addedAuthors), old(removedAuthorIds))
      ensures courses == CommitCourses(old(courses), old(addedCourses), old(removedCourseIds))
      ensures addedAuthors == [] && addedCourses == []
      ensures removedAuthorIds == [] && removedCourseIds == []
    {
      var written := |addedAuthors| + |addedCourses| + |removedAuthorIds| + |removedCourseIds|;
      CommitKeepsDistinctIds(authors, addedAuthors, removedAuthorIds);
      authors, courses := CommitAuthors(authors, addedAuthors, removedAuthorIds), CommitCourses(courses, addedCourses, removedCourseIds);
      addedAuthors, addedCourses, removedAuthorIds, removedCourseIds := [], [], [], [];
      assert authors + addedAuthors == authors;
      ok := written >= 0;
    }

    // ----- queries over the committed rows -----

    /** AuthorExists: fails on an empty id; otherwise tells whether a stored
        author has the id. */
    function AuthorExists(authorId: Guid): (r: Result<bool>)
      reads this
      ensures authorId == EmptyGuid <==> r == Err(ArgumentNull("authorId"))
      ensures r.Ok? <==> authorId != EmptyGuid
      ensures r.Ok? ==> (r.value <==> authorId in AuthorIdSet(authors))
    {
      if authorId == EmptyGuid then Err(ArgumentNull("authorId"))
      else Ok(exists a :: a in authors && a.id == authorId)
    }

    /** GetAuthors(): every stored author, each as often as it is stored,
        in no promised order. */
    function GetAuthors(): (r: seq<AuthorRow>)
      reads this
      ensures multiset(r) == multiset(authors)
    {
      authors
    }

    /** GetAuthors(ids): fails on null; otherwise the stored authors whose id
        is listed, sorted by last name. */
    function GetAuthorsByIds(authorIds: Option<seq<Guid>>): (r: Result<seq<AuthorRow>>)
      reads this
      ensures authorIds.None? <==> r == Err(ArgumentNull("authorIds"))
      ensures r.Ok? <==> authorIds.Some?
      ensures r.Ok? ==> SortedBy(r.value, LastName)
      ensures r.Ok? ==> forall a :: multiset(r.value)[a] == if a.id in authorIds.value then multiset(authors)[a] else 0
    {
      if authorIds.None? then Err(ArgumentNull("authorIds"))
      else Ok(AuthorsWithIds(authors, authorIds.value))
    }

    /** GetAuthors(parameters): fails on null; otherwise the requested page
        of the authors that pass both filters. */
    function GetAuthorsByParameters(parameters: Option<AuthorsResourceParameters>): (r: Result<seq<AuthorRow>>)
      requires parameters.Some? ==> PagingInRange(parameters.value.pageNumber, parameters.value.pageSize)
      reads this
      ensures parameters.None? <==> r == Err(ArgumentNull("authorsResourceParameters"))
      ensures r.Ok? <==> parameters.Some?
      ensures r.Ok? ==>
        var p := parameters.value;
        var filtered := FilterAuthors(authors, p.mainCategory, p.searchQuery);
        && |r.value| <= p.pageSize
        && (|r.value| < p.pageSize ==> Offset(p.pageNumber, p.pageSize) + |r.value| >= |filtered|)
        && forall k :: 0 <= k < |r.value| ==>
             Offset(p.pageNumber, p.pageSize) + k < |filtered|
             && r.value[k] == filtered[Offset(p.pageNumber, p.pageSize) + k]
    {
      if parameters.None? then Err(ArgumentNull("authorsResourceParameters"))
      else Ok(SearchAuthors(authors, parameters.value))
    }

    /** GetAuthor: fails on an empty id; otherwise the first stored author
        with the id, or nothing when there is none. */
    function GetAuthor(authorId: Guid): (r: Result<Option<AuthorRow>>)
      reads this
      ensures authorId == EmptyGuid <==> r == Err(ArgumentNull("authorId"))
      ensures r.Ok? <==> authorId != EmptyGuid
      ensures r.Ok? && r.value.Some? ==> r.value.value in authors && r.value.value.id == authorId
      ensures r.Ok? ==> (r.value.None? <==> authorId !in AuthorIdSet(authors))
    {
      if authorId == EmptyGuid then Err(ArgumentNull("authorId"))
      else Ok(FindAuthor(authors, authorId))
    }

    /** GetCourse: fails on an empty author id, then on an empty course id;
        otherwise a stored course with both ids, or nothing. */
    function GetCourse(authorId: Guid, courseId: Guid): (r: Result<Option<CourseRow>>)
      reads this
      ensures authorId == EmptyGuid ==> r == Err(ArgumentNull("authorId"))
      ensures authorId != EmptyGuid && courseId == EmptyGuid ==> r == Err(ArgumentNull("courseId"))
      ensures r.Ok? <==> authorId != EmptyGuid && courseId != EmptyGuid
      ensures r.Ok? && r.value.Some? ==>
        r.value.value in courses && r.value.value.authorId == authorId && r.value.value.id == courseId
      ensures r.Ok? && r.value.None? ==> forall c :: c in courses ==> !(c.authorId == authorId && c.id == courseId)
    {
      if authorId == EmptyGuid then Err(ArgumentNull("authorId"))
      else if courseId == EmptyGuid then Err(ArgumentNull("courseId"))
      else Ok(FindCourse(courses, authorId, courseId))
    }

    /** GetCourses: fails on an empty id; otherwise the author's courses,
        sorted by title. */
    function GetCourses(authorId: Guid): (r: Result<seq<CourseRow>>)
      reads this
      ensures authorId == EmptyGuid <==> r == Err(ArgumentNull("authorId"))
      ensures r.Ok? <==> authorId != EmptyGuid
      ensures r.Ok? ==> SortedBy(r.value, Title)
      ensures r.Ok? ==> forall c :: multiset(r.value)[c] == if c.authorId == authorId then multiset(courses)[c] else 0
    {
      if authorId == EmptyGuid then Err(ArgumentNull("authorId"))
      else Ok(CoursesOf(courses, authorId))
    }
  }

  /** The identifier assignment of AddAuthor: the author and then each of
      its courses, in order, get a Guid that is neither empty nor in use nor
      issued before, and each course is linked to the author. */
  method IssueIdentifiers(author: Author, used: seq<Guid>)
    modifies author, set c | c in author.courses
    ensures author.id != EmptyGuid && author.id !in used
    ensures author.courses == old(author.courses)
    ensures author.firstName == old(author.firstName) && author.lastName == old(author.lastName)
    ensures author.dateOfBirth == old(author.dateOfBirth) && author.mainCategory == old(author.mainCategory)
    ensures forall c :: c in author.courses ==>
      && c.id != EmptyGuid && c.id !in used && c.id != author.id
      && c.authorId == author.id
      && c.title == old(c.title) && c.description == old(c.description)
    ensures forall c, d :: c in author.courses && d in author.courses && c != d ==> c.id != d.id
  {
    var inUse := used;
    author.id := NewGuid(inUse);
    inUse := inUse + [author.id];
    ghost var issued := [author.id];
    var cs := author.courses;
    var i := 0;
    while i < |cs|
      invariant 0 <= i <= |cs|
      invariant author.courses == cs && |issued| > 0 && author.id == issued[0]
      invariant author.firstName == old(author.firstName) && author.lastName == old(author.lastName)
      invariant author.dateOfBirth == old(author.dateOfBirth) && author.mainCategory == old(author.mainCategory)
      invariant inUse == used + issued
      invariant forall g :: g in issued ==> g != EmptyGuid && g !in used
      invariant forall k :: 0 <= k < i ==> cs[k].id in issued && cs[k].id != author.id && cs[k].authorId == author.id
      invariant forall k, l :: 0 <= k < i && 0 <= l < i && cs[k] != cs[l] ==> cs[k].id != cs[l].id
      invariant forall c :: c in cs ==> c.title == old(c.title) && c.description == old(c.description)
    {
      var course := cs[i];
      assert author.id in inUse;
      assert forall k :: 0 <= k < i ==> cs[k].id in inUse;
      course.id := NewGuid(inUse);
      course.authorId := author.id;
      issued := issued + [course.id];
      inUse := inUse + [course.id];
      i := i + 1;
    }
    assert author.id in issued;
  }

  /** Staging a row whose id no stored or staged row has keeps the ids
      distinct. */
  lemma KeepsDistinctIds(rows: seq<AuthorRow>, added: seq<AuthorRow>, a: AuthorRow)
    requires DistinctIds(rows + added) && a.id !in AuthorIds(rows + added)
    ensures DistinctIds(rows + (added + [a]))
  {
    var all := rows + added;
    assert rows + (added + [a]) == all + [a];
    forall i, j | 0 <= i < j < |all + [a]| ensures (all + [a])[i].id != (all + [a])[j].id {
      if j == |all| {
        assert (all + [a])[i] == all[i];
        assert AuthorIds(all)[i] == all[i].id;
      }
    }
  }

  /** AuthorExists(id) holds exactly when GetAuthor(id) finds an author with
      that id; both fail alike on the empty id. */
  lemma ExistsIffFound(repo: CourseLibraryRepository, authorId: Guid)
    ensures repo.AuthorExists(authorId).Err? <==> repo.GetAuthor(authorId).Err?
    ensures repo.AuthorExists(authorId) == Ok(true)
        <==> exists a: AuthorRow :: repo.GetAuthor(authorId) == Ok(Some(a)) && a.id == authorId
  {
    if authorId != EmptyGuid && repo.AuthorExists(authorId) == Ok(true) {
      var a := FindAuthor(repo.authors, authorId).value;
      assert repo.GetAuthor(authorId) == Ok(Some(a));
    }
  }

  /** Deleting an author and saving leaves no author with its id. */
  method DeleteAuthorAndSave(repo: CourseLibraryRepository, author: Author)
    requires repo.Valid() && author.id != EmptyGuid
    modifies repo
    ensures repo.Valid()
    ensures repo.GetAuthor(author.id) == Ok(None)
  {
    var _ := repo.DeleteAuthor(author);
    var _ := repo.Save();
    RemovedAuthorIsGone(old(repo.authors), old(repo.addedAuthors), old(repo.removedAuthorIds) + [author.id], author.id);
  }

  /** Adding an author and saving makes it findable by the id it was given,
      with the values it had when it was added. */
  method AddAuthorAndSave(repo: CourseLibraryRepository, author: Author)
    requires repo.Valid()
    modifies repo, author, set c | c in author.courses
    ensures repo.Valid()
    ensures author.id != EmptyGuid
    ensures repo.GetAuthor(author.id) == Ok(Some(author.Row()))
  {
    var _ := repo.AddAuthor(author);
    ghost var rows, added, removed := repo.authors, repo.addedAuthors, repo.removedAuthorIds;
    var _ := repo.Save();
    AddedAuthorIsFound(rows, added, removed, author.Row());
  }
}
