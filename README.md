# Course library repository, modelled in Dafny

This project models the data-access core of the CourseLibrary REST API:

- `CourseLibraryRepository`, the unit of work over the authors and courses of the catalog;
- `GetCurrentAge`, the extension method that turns an author's date of birth into an age.

The repository is a Dafny class, `Services.CourseLibraryRepository`. Its fields are:

- `authors` and `courses`: the committed rows of the store;
- `addedAuthors`, `addedCourses`, `removedAuthorIds` and `removedCourseIds`: the changes staged since the last `Save`.

Authors and courses are objects whose fields the mutators assign in place. These are `Entities.Author` and `Entities.Course`:

- `AddAuthor` gives the author and each of its courses a fresh identifier.
- `AddCourse` overwrites the course's author id.

The store itself holds value snapshots of them (`AuthorRow`, `CourseRow`). `Save` writes every staged change: it keeps the committed and staged rows whose id is not staged for removal.

The queries are pure functions of the committed rows. They are composed from two operators:

- `Ordering.Filter` (LINQ `Where`);
- `Ordering.SortBy` (LINQ `OrderBy`, an insertion sort under an ordinal string order).

They also use paging (`Skip`/`Take`) and the .NET string helpers in module `Text`:

- `IsNullOrWhiteSpace`;
- `Trim`;
- `Contains`.

A thrown `ArgumentNullException` is the `Err(ArgumentNull(name))` result of a query, or the `Fail(ArgumentNull(name))` outcome of a mutator. Either way it carries the parameter name the source passes to the exception.

`Helpers.GetCurrentAge` takes the clock reading as a parameter, `now`. It works over a proleptic Gregorian calendar that includes `AddYears`, which clamps February 29 to February 28 in a common year.

Modules:

- `Text`: whitespace, trimming, substring search and the ordinal string order.
- `Ordering`: `Filter` and `SortBy`.
- `Helpers`: the calendar and `GetCurrentAge`.
- `Entities`: `Guid`, the entity classes and their rows.
- `Services`: the query functions, commit, identifier issue and the repository class.

## Model

| member | source | states |
|---|---|---|
| Text.TrimStart | CourseLibrary.API/Services/CourseLibraryRepository.cs:111 | the result is a suffix of the input, everything dropped is white space, and the result does not start with white space |
| Text.TrimEnd | CourseLibrary.API/Services/CourseLibraryRepository.cs:111 | the result is a prefix of the input, everything dropped is white space, and the result does not end with white space |
| Text.TrimIsInfix | CourseLibrary.API/Services/CourseLibraryRepository.cs:111 | `Trim(s)` is a contiguous piece of `s`, only white space surrounds it, and it neither starts nor ends with white space |
| Text.BlankIffTrimsToEmpty | CourseLibrary.API/Services/CourseLibraryRepository.cs:109-117 | a non-null string is null-or-white-space exactly when trimming it leaves the empty string |
| Text.StringLeTotal | CourseLibrary.API/Services/CourseLibraryRepository.cs:91 | the string order used by `OrderBy` is total |
| Text.StringLeTransitive | CourseLibrary.API/Services/CourseLibraryRepository.cs:91 | that order is transitive |
| Text.StringLeAntisymmetric | CourseLibrary.API/Services/CourseLibraryRepository.cs:91 | that order is antisymmetric |
| Ordering.Filter | CourseLibrary.API/Services/CourseLibraryRepository.cs:89 | `Where` keeps exactly the elements the predicate accepts and never grows the sequence |
| Ordering.FilterCount | CourseLibrary.API/Services/CourseLibraryRepository.cs:89 | every accepted element is kept as often as it occurs, every rejected one is dropped |
| Ordering.FilterCongruent | CourseLibrary.API/Services/CourseLibraryRepository.cs:89 | filtering with predicates that agree on the elements gives the same result |
| Ordering.Insert | CourseLibrary.API/Services/CourseLibraryRepository.cs:163 | inserting into a sorted sequence keeps it sorted and adds exactly the one element |
| Ordering.SortBy | CourseLibrary.API/Services/CourseLibraryRepository.cs:90-91 | `OrderBy` returns a permutation of its input, sorted ascending by the key |
| Helpers.DaysInMonth | CourseLibrary.API/Helpers/DateTimeOffsetExtensions.cs:10 | a month has 28 to 31 days, and February has 29 exactly in a leap year |
| Helpers.AddYears | CourseLibrary.API/Helpers/DateTimeOffsetExtensions.cs:10 | a valid date stays valid; the year moves by n; month and time of day are kept; the day is kept, except that February 29 becomes February 28 in a common year |
| Helpers.AddZeroYears | CourseLibrary.API/Helpers/DateTimeOffsetExtensions.cs:10 | adding zero years is the identity |
| Helpers.GetCurrentAge | CourseLibrary.API/Helpers/DateTimeOffsetExtensions.cs:5-16 | the age is the difference of the calendar years or one less |
| Helpers.DecrementIffBeforeAnniversary | CourseLibrary.API/Helpers/DateTimeOffsetExtensions.cs:10-13 | the year difference is decremented exactly when now is strictly before this year's anniversary, so there is no decrement on the anniversary instant |
| Helpers.AgeIsBracketedByAnniversaries | CourseLibrary.API/Helpers/DateTimeOffsetExtensions.cs:8-15 | the age-th anniversary is not after now and the next anniversary is after now |
| Helpers.AgeIsUnique | CourseLibrary.API/Helpers/DateTimeOffsetExtensions.cs:8-15 | no other count of years has that bracketing property |
| Helpers.AddYearsMonotone | CourseLibrary.API/Helpers/DateTimeOffsetExtensions.cs:10 | adding more years never gives an earlier instant |
| Helpers.AgeNonNegative | CourseLibrary.API/Helpers/DateTimeOffsetExtensions.cs:8-15 | a birth at or before now gives an age of at least 0 |
| Helpers.AgeMonotone | CourseLibrary.API/Helpers/DateTimeOffsetExtensions.cs:8-15 | for a fixed birth date, a later now never gives a smaller age |
| Helpers.LeapDayBirthdayInCommonYear | CourseLibrary.API/Helpers/DateTimeOffsetExtensions.cs:10-12 | someone born on February 29 has the age increase on February 28 of a common year, at the birth's time of day |
| Helpers.LeapDayBirthdayInLeapYear | CourseLibrary.API/Helpers/DateTimeOffsetExtensions.cs:10-12 | in a leap year they are still a year younger all through February 28 |
| Helpers.AgeExamples | CourseLibrary.API/Helpers/DateTimeOffsetExtensions.cs:8-15 | born 2000-03-01: 23 on 2024-02-29 and 24 on 2024-03-01 |
| Entities.Author.constructor | CourseLibrary.API/Models/AuthorForCreationDto.cs:3-12 | an author built from a creation request has its fields and courses, and the empty id |
| Entities.Course.constructor | CourseLibrary.API/Models/CourseForManipulationDto.cs:7-16 | a course built from a request body has its title and description, and the empty id and author id |
| Entities.CourseRows | CourseLibrary.API/Services/CourseLibraryRepository.cs:32 | the stored rows of the author's courses are their field values, position by position |
| Entities.Distinct | CourseLibrary.API/Services/CourseLibraryRepository.cs:32 | the change tracker holds each course object of the author once: the same objects, with no repetition |
| Services.FindAuthor | CourseLibrary.API/Services/CourseLibraryRepository.cs:136 | a found author is stored and has the id; nothing is found exactly when no stored author has the id |
| Services.FindAuthorIsFirst | CourseLibrary.API/Services/CourseLibraryRepository.cs:136 | `FirstOrDefault` returns the first stored author with the id |
| Services.FindCourse | CourseLibrary.API/Services/CourseLibraryRepository.cs:151 | a found course is stored and has both ids; nothing is found exactly when no stored course has both |
| Services.FindCourseIsFirst | CourseLibrary.API/Services/CourseLibraryRepository.cs:151 | `FirstOrDefault` returns the first stored course with both ids |
| Services.FoundIffExists | CourseLibrary.API/Services/CourseLibraryRepository.cs:59 | an author is found exactly when `Any` of the stored authors has the id |
| Services.AuthorsWithIds | CourseLibrary.API/Services/CourseLibraryRepository.cs:89-92 | the stored authors whose id is listed, each as often as it is stored, sorted by last name |
| Services.MatchCount | CourseLibrary.API/Services/CourseLibraryRepository.cs:89 | with distinct stored ids, the number of authors matched by an id set is the number of ids in that set that are stored |
| Services.CountCheckPassesIff | CourseLibrary.API/Controllers/AuthorCollectionsController.cs:34-39 | the batch lookup returns at most as many authors as distinct ids, and as many as ids were requested exactly when no id repeats and every id is stored |
| Services.CoursesOf | CourseLibrary.API/Services/CourseLibraryRepository.cs:161-164 | the stored courses of the author, each as often as it is stored, sorted by title |
| Services.ByCategory | CourseLibrary.API/Services/CourseLibraryRepository.cs:109-113 | the category clause keeps an author, as often as stored, exactly when the category is blank or the author's category equals the trimmed value |
| Services.BySearch | CourseLibrary.API/Services/CourseLibraryRepository.cs:115-121 | the search clause keeps an author, as often as stored, exactly when the query is blank or the trimmed query occurs in the category, first name or last name |
| Services.FilterAuthors | CourseLibrary.API/Services/CourseLibraryRepository.cs:107-121 | an author is kept, as often as stored, exactly when both filters pass |
| Services.SkipTake | CourseLibrary.API/Services/CourseLibraryRepository.cs:123-126 | `Skip(n).Take(m)` is the contiguous run starting at offset n, in order, at most m long, and shorter only when the input ends first |
| Services.EveryElementOnItsPage | CourseLibrary.API/Services/CourseLibraryRepository.cs:123-126 | element k is entry k mod size of page k div size + 1 |
| Services.SearchPageContents | CourseLibrary.API/Services/CourseLibraryRepository.cs:107-126 | a page holds at most pageSize authors, each stored and passing both filters |
| Services.CommittedAuthorCount | CourseLibrary.API/Services/CourseLibraryRepository.cs:169 | a commit keeps each stored and staged author as often as it occurs, unless its id is staged for removal, and nothing else |
| Services.CommittedCourseCount | CourseLibrary.API/Services/CourseLibraryRepository.cs:169 | the same for courses |
| Services.RemovedAuthorIsGone | CourseLibrary.API/Services/CourseLibraryRepository.cs:62-70 | after a commit, no author with a removed id is found |
| Services.AddedAuthorIsFound | CourseLibrary.API/Services/CourseLibraryRepository.cs:17-33 | after a commit with distinct ids, a staged author whose id is not removed is found by its id, with its staged values |
| Services.FilterKeepsDistinctIds | CourseLibrary.API/Services/CourseLibraryRepository.cs:169 | dropping rows keeps author ids distinct |
| Services.CommitKeepsDistinctIds | CourseLibrary.API/Services/CourseLibraryRepository.cs:169 | a commit keeps author ids distinct |
| Services.KeepsDistinctIds | CourseLibrary.API/Services/CourseLibraryRepository.cs:32 | staging an author whose id no stored or staged author has keeps the ids distinct |
| Services.MaxId | CourseLibrary.API/Services/CourseLibraryRepository.cs:25 | a bound on every identifier in use |
| Services.NewGuid | CourseLibrary.API/Services/CourseLibraryRepository.cs:25 | a new identifier is neither empty nor in use |
| Services.IssueIdentifiers | CourseLibrary.API/Services/CourseLibraryRepository.cs:24-30 | the author and each of its courses get a fresh, non-empty id, all different; each course is linked to the author; no other field changes |
| Services.CourseLibraryRepository.constructor | CourseLibrary.API/Services/CourseLibraryRepository.cs:12-15 | a repository over a store with distinct author ids, with nothing staged |
| Services.CourseLibraryRepository.AddAuthor | CourseLibrary.API/Services/CourseLibraryRepository.cs:17-33 | fails on null and changes nothing; otherwise the author and its courses get fresh non-empty distinct ids, are linked, and are staged as snapshots; the author ids stay distinct |
| Services.CourseLibraryRepository.AddCourse | CourseLibrary.API/Services/CourseLibraryRepository.cs:35-50 | fails on an empty author id, then on null; otherwise sets the course's author id whatever it was, leaves its id, and stages it |
| Services.CourseLibraryRepository.DeleteAuthor | CourseLibrary.API/Services/CourseLibraryRepository.cs:62-70 | fails on null and changes nothing; otherwise only stages the author's removal |
| Services.CourseLibraryRepository.DeleteCourse | CourseLibrary.API/Services/CourseLibraryRepository.cs:72-80 | fails on null and changes nothing; otherwise only stages the course's removal |
| Services.CourseLibraryRepository.UpdateAuthor | CourseLibrary.API/Services/CourseLibraryRepository.cs:172-175 | changes nothing |
| Services.CourseLibraryRepository.UpdateCourse | CourseLibrary.API/Services/CourseLibraryRepository.cs:177-180 | changes nothing |
| Services.CourseLibraryRepository.Save | CourseLibrary.API/Services/CourseLibraryRepository.cs:167-170 | commits every staged change, empties the staging lists, keeps author ids distinct, and returns true because the written count is never negative |
| Services.CourseLibraryRepository.AuthorExists | CourseLibrary.API/Services/CourseLibraryRepository.cs:52-60 | fails exactly on the empty id; otherwise true exactly when a stored author has the id |
| Services.CourseLibraryRepository.GetAuthors | CourseLibrary.API/Services/CourseLibraryRepository.cs:95-98 | every stored author, as often as stored |
| Services.CourseLibraryRepository.GetAuthorsByIds | CourseLibrary.API/Services/CourseLibraryRepository.cs:82-93 | fails exactly on null; otherwise the stored authors with a listed id, as often as stored, sorted by last name |
| Services.CourseLibraryRepository.GetAuthorsByParameters | CourseLibrary.API/Services/CourseLibraryRepository.cs:100-127 | fails exactly on null and succeeds otherwise, with the page of the filtered authors: entry k is entry offset + k, at most pageSize of them, fewer only when the filtered authors run out |
| Services.CourseLibraryRepository.GetAuthor | CourseLibrary.API/Services/CourseLibraryRepository.cs:129-137 | fails exactly on the empty id; otherwise a stored author with the id, and nothing exactly when there is none |
| Services.CourseLibraryRepository.GetCourse | CourseLibrary.API/Services/CourseLibraryRepository.cs:139-152 | fails on an empty author id, then on an empty course id, and succeeds exactly when both are non-empty, with a stored course with both ids, and nothing only when there is none |
| Services.CourseLibraryRepository.GetCourses | CourseLibrary.API/Services/CourseLibraryRepository.cs:154-165 | fails exactly on the empty id; otherwise the author's stored courses, as often as stored, sorted by title |
| Services.ExistsIffFound | CourseLibrary.API/Services/CourseLibraryRepository.cs:52-60 | `AuthorExists` and `GetAuthor` fail alike, and `AuthorExists` is true exactly when `GetAuthor` returns an author with the id |
| Services.DeleteAuthorAndSave | CourseLibrary.API/Services/CourseLibraryRepository.cs:62-70 | after `DeleteAuthor(x)` and `Save()`, `GetAuthor(x.Id)` returns null |
| Services.AddAuthorAndSave | CourseLibrary.API/Services/CourseLibraryRepository.cs:17-33 | after `AddAuthor(x)` and `Save()`, `GetAuthor(x.Id)` returns the author as it was added |

## Left out

- I/O and the database. The store is the committed rows, and SQL is not modelled.
- The null check on the context in the constructor, and `Dispose`, are not modelled. The null check is not reachable, because the context is not a parameter of the model. `Dispose` does nothing.
- EF Core change tracking of queried entities is not modelled. Queries return row values, not tracked objects, so editing a queried object and saving is outside the model. This is also why `UpdateAuthor` and `UpdateCourse` have nothing to do.
- Cascade deletes are not modelled, because none are configured in the files shown. Removing an author leaves its courses in place.
- Staged adds are snapshots. `AddAuthor` and `AddCourse` stage the values the objects hold when they are called, so an edit made to an added object before `Save` is lost. The store's change tracker would persist it.
- Key generation for a course added through `AddCourse` is not modelled. The course keeps the id it has.
- Services.CourseLibraryRepository.AddAuthor: it also sets each course's author id. The source leaves this to the store's relationship fix-up, and the model makes it explicit.
- Services.NewGuid: `Guid.NewGuid` is random. It is modelled as one more than the largest id in use, and contracts use only that the id is fresh and not empty.
- Services.CourseLibraryRepository.GetAuthorsByParameters: it requires a page number of at least 1, a page size of at least 0, and a skip count that fits a 32-bit int. Outside those bounds the source either overflows or has `Skip`/`Take` reject a negative count.
- SQL Server collation is not modelled. Equality and `Contains` are exact and case-sensitive, and `OrderBy` uses an ordinal order on strings.
- Services.AuthorsWithIds: no order among authors with the same last name is promised. The `OrderBy(FirstName)` before the `OrderBy(LastName)` is overridden, so its effect on ties is not modelled.
- Helpers.GetCurrentAge: both instants are taken in one offset. The offset conversion between `DateTime.UtcNow` and the `DateTimeOffset` is not modelled.
- Helpers.AddYears: years are unbounded integers. The 1..9999 range check of .NET is not modelled, and `GetCurrentAge` never reaches it because the target year is the current year.
- The controllers, AutoMapper projection, model binding and the validation attributes of the DTOs are not modelled. The count comparison at AuthorCollectionsController.cs:36 is the one exception: it is the lemma `Services.CountCheckPassesIff`.
