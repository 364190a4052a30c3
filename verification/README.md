# Books catalog — a Dafny model

A model of the core of the "books" catalog service: a Spring Boot
application that keeps **books** and **authors** in two tables joined by a
many-to-many association owned by the book. The model covers:

- the book operations of `BookService`: store, findAll, findById, delete,
  update, search by title and search by author name;
- the author operations of `AuthorService`: subset resolution (`findAll`),
  `exists`, `findById` and `create`;
- the two derived queries of `BookRepository`;
- the field-copying `EntityDtoMapper`;
- the Bean Validation rules on `BookRequest` and `AuthorRequest`;
- the controllers' "validate, then call the service" composition.

The database is an immutable value, `Catalog.Catalog`. It holds the author
table (`map<AuthorId, Author>`), the book table (`map<BookId, Book>`) and the
next value of the book IDENTITY column. Reads are functions of a catalog.
Writes return a `Step`: the outcome (`Ok` or an `Error`) and the next
catalog. An `Err` outcome always leaves the catalog unchanged.

`Catalog.Valid` is the invariant the database keeps:

- every row sits under its own key;
- emails are unique;
- book keys lie below the IDENTITY counter;
- every author a book refers to is a stored author row (referential
  integrity of `books_authors`).

Every write preserves it.

The service's failures are kinds of `Catalog.Error`, carrying the messages
the source uses:

- `EntityElementNotFoundException` becomes `NotFound`;
- `BookManagementInvalidException` becomes `InvalidRequest`;
- a repository refusing a null id or id set becomes `NullArgument`;
- a NOT NULL or UNIQUE column refusing a write becomes `ConstraintViolation`;
- failed request validation becomes `BadRequest`, carrying the set of
  violations.

Modules follow the source's packages:

| file | module | models |
|---|---|---|
| wrappers.dfy | Wrappers | `Option` (Java null) and `Result` |
| text.dfy | Text | blankness, ASCII case folding, substring, lexicographic order |
| author.dfy | Authors | `Author.java` |
| book.dfy | Books | `Book.java` |
| dto.dfy | Dto | the four request/response records |
| mapper.dfy | EntityDtoMapper | `EntityDtoMapper.java` |
| validation.dfy | Validation | the annotations on `BookRequest.java` and `AuthorRequest.java` |
| catalog.dfy | Catalog | the tables, their invariant, save / findAll / findById / delete |
| author_service.dfy | AuthorService | `AuthorService.java` |
| book_repository.dfy | BookRepository | `BookRepository.java` |
| book_service.dfy | BookService | `BookService.java` |
| api.dfy | Api | `ApiController.java`, `AuthorController.java` (validation, then service) |

Two things the source's text implies, and how the model reads them:

- `BookService.java` calls `findByTitleContainingIgnoreCaseOrderByAuthors_FirstnameAsc`.
  `BookRepository.java` declares `findByTitleLikeIgnoreCaseOrderByAuthors_FirstnameAsc`
  instead. The repository tests call the `Containing` name. The model follows
  the service and the tests: a substring test ignoring case.
- `BookService.java` calls `authorService.exists(id)`, but `AuthorService.java`
  declares no such method. The service tests stub it with `existsById`, so it
  is modelled as key membership (`AuthorService.Exists`).

## Model

| member | source | states |
|---|---|---|
| Catalog.Empty | src/main/java/com/workbeattalent/books/book/Book.java:17-19 | The empty database satisfies the invariant and starts with no rows. |
| Catalog.InsertBook | src/main/java/com/workbeattalent/books/book/Book.java:17-28 | Saving a new book succeeds exactly when title, pages and summary are non-null. The row's key is taken from the IDENTITY counter, which then moves past it, so the key was never issued before. Only that row is added. A null column is refused with a NOT NULL violation and nothing changes. With registered authors, the invariant is kept. |
| Catalog.SaveBook | src/main/java/com/workbeattalent/books/book/Book.java:21-37 | Saving an existing book overwrites exactly its row with the entity's fields, or is refused by a NOT NULL column and leaves the table unchanged. |
| Catalog.InsertAuthor | src/main/java/com/workbeattalent/books/author/Author.java:18-27 | Saving an author succeeds exactly when firstname and email are non-null and the email is not already used. On success exactly that row is added under the new key. Any refusal is a constraint violation that changes nothing. The invariant is always kept. |
| Catalog.IdsBetween | src/main/java/com/workbeattalent/books/book/Book.java:17-19 | The keys of a table in a range, strictly ascending, with exactly the table's keys in that range as members. |
| Catalog.AllIds | src/main/java/com/workbeattalent/books/book/Book.java:17-19 | The IDENTITY (insertion) order of the book table, ascending and holding every key and nothing else; the model assumes it is the order of queries without ORDER BY. |
| Catalog.Filter | src/main/java/com/workbeattalent/books/book/BookService.java:34-38 | A selection from a key list contains exactly the kept keys, never grows, keeps an ascending list ascending, and is empty when no key is kept. |
| Catalog.Rows | src/main/java/com/workbeattalent/books/book/BookService.java:34-38 | Loading keys gives one row per key, in the keys' order, and in a valid table each loaded row carries the key it was loaded by. |
| Catalog.StoredUnderOwnId | src/main/java/com/workbeattalent/books/book/Book.java:17-19 | Every row of a valid book table can be looked up again by its own id. |
| Catalog.Select | src/main/java/com/workbeattalent/books/book/BookService.java:34-38 | A repository query with a row predicate returns exactly the stored books satisfying it, each the row under its own id, in strictly ascending id order (the order assumed for queries without ORDER BY); it is empty when no stored book satisfies the predicate. |
| AuthorService.FindAll | src/main/java/com/workbeattalent/books/author/AuthorService.java:20-22 | Resolving ids returns stored authors only, includes every requested id that exists, silently skips unknown ids, and on a well-keyed table returns only requested ids. |
| AuthorService.ImageCardinality | src/main/java/com/workbeattalent/books/author/AuthorService.java:20-22 | Distinct present keys resolve to distinct authors: as many authors as keys. |
| AuthorService.ResolvedCount | src/main/java/com/workbeattalent/books/author/AuthorService.java:20-22 | The number of resolved authors is the number of requested ids that exist, and never more than were requested. |
| AuthorService.SubsetCardinality | src/main/java/com/workbeattalent/books/author/AuthorService.java:20-22 | A subset is no larger than its superset, and one of the same size is the whole set. |
| AuthorService.ResolvesAll | src/main/java/com/workbeattalent/books/book/BookService.java:23-26 | The size comparison the book service makes is exact: the resolved authors are as many as the requested ids if and only if every requested id is a stored author. |
| AuthorService.Exists | src/main/java/com/workbeattalent/books/book/BookService.java:47-48 | An author exists exactly when resolving its single id finds an author. |
| AuthorService.FindById | src/main/java/com/workbeattalent/books/author/AuthorService.java:30-34 | Looking up an author succeeds exactly when it exists. It then returns its id and columns. Otherwise it fails with NotFound and the "Unable to fetch author with ID: " message. |
| AuthorService.FindByIdAgreesWithFindAll | src/main/java/com/workbeattalent/books/author/AuthorService.java:20-34 | Single-key lookup and subset resolution agree: found means resolving {id} gives exactly that author, not found means it gives nothing. |
| AuthorService.NewAuthorId | src/main/java/com/workbeattalent/books/author/Author.java:18-20 | A generated author key is not in use. |
| AuthorService.Create | src/main/java/com/workbeattalent/books/author/AuthorService.java:25-28 | Creating an author succeeds exactly when firstname and email are present and the email is unused. The response carries a fresh id and the request's names and email. The request's id is dropped. Exactly that author is added and the books and the IDENTITY counter are untouched. A failure changes nothing. |
| EntityDtoMapper.ToBook | src/main/java/com/workbeattalent/books/util/EntityDtoMapper.java:13-20 | A request maps to an entity with the same id, title, pages and summary and no authors. |
| EntityDtoMapper.FromBook | src/main/java/com/workbeattalent/books/util/EntityDtoMapper.java:22-29 | An entity maps to a response with all five fields copied. |
| EntityDtoMapper.ToAuthor | src/main/java/com/workbeattalent/books/util/EntityDtoMapper.java:31-37 | An author request maps to an entity with the same names and email and no id. |
| EntityDtoMapper.FromAuthor | src/main/java/com/workbeattalent/books/util/EntityDtoMapper.java:39-41 | An author entity maps to a response with all four fields copied. |
| EntityDtoMapper.BookRoundTrip | src/main/java/com/workbeattalent/books/util/EntityDtoMapper.java:13-29 | Request to entity to response keeps id, title, pages and summary and shows no author. |
| EntityDtoMapper.AuthorRoundTrip | src/main/java/com/workbeattalent/books/util/EntityDtoMapper.java:31-41 | Author request to entity to response keeps names and email and loses the id. |
| EntityDtoMapper.FromBookInjective | src/main/java/com/workbeattalent/books/util/EntityDtoMapper.java:22-29 | The book response loses no information: equal responses come from equal entities. |
| EntityDtoMapper.StoredAuthorResponse | src/main/java/com/workbeattalent/books/util/EntityDtoMapper.java:39-41 | A stored author's response carries its id and every column. |
| Books.RowOf | src/main/java/com/workbeattalent/books/book/Book.java:17-28 | The row written for an entity loads back as that entity under the assigned key. |
| Text.NameLeReflexive | src/main/java/com/workbeattalent/books/book/BookRepository.java:11 | The first-name ordering is reflexive. |
| Text.NameLeTotal | src/main/java/com/workbeattalent/books/book/BookRepository.java:11 | Any two first names are ordered one way or the other. |
| Text.NameLeTransitive | src/main/java/com/workbeattalent/books/book/BookRepository.java:11 | The first-name ordering is transitive. |
| Text.NameLeAntisymmetric | src/main/java/com/workbeattalent/books/book/BookRepository.java:11 | Names ordered both ways are equal, so the ordering is a total order. |
| Text.ContainsIgnoresKeywordCase | src/main/java/com/workbeattalent/books/book/BookService.java:40-44 | The title match does not depend on the keyword's letter case. |
| Text.EmptyKeywordMatchesAll | src/main/java/com/workbeattalent/books/book/BookService.java:40-44 | The empty keyword matches every title. |
| Validation.NameViolations | src/main/java/com/workbeattalent/books/dto/BookRequest.java:13-15 | A required name of at least two characters: "required" fires exactly when the name is null or blank once trimmed, and "too short" exactly when it is non-null with fewer than two characters; so null raises only "required", a blank "  " only "required", and a non-blank one-character name only "too short"; no violation exactly when the name has two or more characters and one that `trim()` keeps (a code above U+0020). |
| Validation.PagesViolations | src/main/java/com/workbeattalent/books/dto/BookRequest.java:17-19 | Pages are refused only when null; no minimum applies. |
| Validation.AuthorIdsViolations | src/main/java/com/workbeattalent/books/dto/BookRequest.java:23-25 | A null id set raises "Please provide an authors id list"; an empty one raises "at least 01 author"; no violation exactly for a non-empty set. |
| Validation.ValidateBook | src/main/java/com/workbeattalent/books/dto/BookRequest.java:11-25 | A book request has no violation exactly when it is well formed. "Book title is required" appears exactly for a null or trim-blank title, "should be on at least 02 characters" exactly for a non-null title under two characters, the pages violation exactly for null pages, and the two authorIds violations exactly for a null and an empty id set. Only title, pages and authorIds rules can fire. |
| Validation.ValidateAuthor | src/main/java/com/workbeattalent/books/dto/AuthorRequest.java:9-19 | An author request has no violation exactly when its firstname has two or more characters, one of them above U+0020, and its email is null or valid. "Author firstname is required" appears exactly for a null or trim-blank firstname, and "should be on at least 02 characters" exactly for a non-null one under two characters. An invalid-email violation appears exactly for a non-null invalid email. Only firstname and email rules can fire. |
| Validation.Report | src/main/java/com/workbeattalent/books/exceptions/GlobalApiErrorExceptionHandler.java:29-34 | A failed validation reports one (field, annotation message) pair per violation, and as many pairs as violations. |
| Validation.MessagesIdentifyViolations | src/main/java/com/workbeattalent/books/dto/BookRequest.java:13-24 | The annotation messages are pairwise distinct, so a message names its rule. |
| Validation.ReportDeterminesViolations | src/main/java/com/workbeattalent/books/exceptions/GlobalApiErrorExceptionHandler.java:29-34 | The pairs reported lose nothing: equal reports come from equal violation sets. |
| Validation.ControlCharactersAreBlank | src/main/java/com/workbeattalent/books/dto/BookRequest.java:13-15 | Blankness is trimming: a title of two NUL characters is refused as missing ("Book title is required"), not as too short. |
| Validation.UnconstrainedFields | src/main/java/com/workbeattalent/books/dto/BookRequest.java:11-21 | A book request's id and summary, and an author request's id and lastname, never affect validation. |
| Validation.AnyPageCountAccepted | src/main/java/com/workbeattalent/books/dto/BookRequest.java:17-19 | Any integer page count, zero or negative included, satisfies the pages rules. |
| BookRepository.LeastFirstname | src/main/java/com/workbeattalent/books/book/BookRepository.java:11 | The sort key of a book is null exactly when it has no author; otherwise it is the first name of one of its authors and is at most every author's first name. |
| BookRepository.KeyLeTotal | src/main/java/com/workbeattalent/books/book/BookRepository.java:11 | Any two sort keys are ordered, nulls first. |
| BookRepository.KeyLeTransitive | src/main/java/com/workbeattalent/books/book/BookRepository.java:11 | The sort-key ordering is transitive. |
| BookRepository.Insert | src/main/java/com/workbeattalent/books/book/BookRepository.java:11 | Inserting a book into a sorted list keeps it sorted and adds exactly that book. |
| BookRepository.Sort | src/main/java/com/workbeattalent/books/book/BookRepository.java:11 | The ORDER BY result is sorted by least author first name and is a permutation of its input. |
| BookRepository.AscendingCountsOnce | src/main/java/com/workbeattalent/books/book/BookService.java:34-38 | A result with strictly ascending ids holds each book at most once. |
| BookRepository.PermutationKeepsIdsDistinct | src/main/java/com/workbeattalent/books/book/BookRepository.java:11 | Reordering the stored rows for ORDER BY never lists two rows with the same id. |
| BookRepository.FindByTitleContaining | src/main/java/com/workbeattalent/books/book/BookRepository.java:11 | The title query returns exactly the stored books whose title contains the keyword ignoring case, each once, ordered by least author first name. |
| BookRepository.FindByAuthorsName | src/main/java/com/workbeattalent/books/book/BookRepository.java:13 | The name query returns exactly the stored books having an author whose first name, or else last name, equals the given one ignoring case, in ascending id order. |
| BookRepository.FirstnameAloneMatches | src/main/java/com/workbeattalent/books/book/BookRepository.java:13 | The name filter is a disjunction: a first-name match alone brings a book in, whatever last name is asked for. |
| BookRepository.NoMatchingAuthorNoBooks | src/test/java/com/workbeattalent/books/book/BookRepositoryTest.java:97-106 | Names that match no author give an empty list. |
| BookRepository.NoMatchingTitleNoBooks | src/test/java/com/workbeattalent/books/book/BookRepositoryTest.java:71-79 | A keyword found in no title gives an empty list. |
| BookRepository.SpringMatchesIgnoringCase | src/test/java/com/workbeattalent/books/book/BookRepositoryTest.java:61-69 | The keyword "sPRing" matches the title "Learning Spring Boot 3.0". |
| BookService.ResolvedAuthorIds | src/main/java/com/workbeattalent/books/book/BookService.java:23-28 | When every requested id exists, the resolved authors are registered rows whose ids are exactly the requested ids. |
| BookService.Store | src/main/java/com/workbeattalent/books/book/BookService.java:22-31 | Storing succeeds exactly when the author ids are non-null and all stored, and title, pages and summary are present. A null id set fails with NullArgument. An unknown author fails with NotFound "One or more author not found". A null column fails with a constraint violation. Failure writes nothing. Success adds one book under a fresh ascending id holding exactly the request's fields and authors. It changes no other row or author and responds with that row. |
| BookService.ResponsesOfSelection | src/main/java/com/workbeattalent/books/book/BookService.java:34-53 | Responses to a query result are the responses of stored books satisfying the query, and every such book is answered. |
| BookService.FindAll | src/main/java/com/workbeattalent/books/book/BookService.java:34-38 | Listing returns the response of every stored book, each a stored row; the list is in strictly ascending id order, the order the model assumes for an unsorted `findAll`. |
| BookService.FindById | src/main/java/com/workbeattalent/books/book/BookService.java:55-59 | Lookup succeeds exactly for a stored id and returns its row with that id. Otherwise it fails with NotFound "No Book found with id: ". |
| BookService.Delete | src/main/java/com/workbeattalent/books/book/BookService.java:61-68 | Deleting succeeds exactly for a stored id and returns that id. It removes exactly that row and keeps every other book, every author and the id counter. Otherwise it fails with NotFound "Unable to delete book with id: " and changes nothing. |
| BookService.Update | src/main/java/com/workbeattalent/books/book/BookService.java:70-86 | A missing book fails first, with NotFound "Unable to find book with ID: ". Then a null id set fails with NullArgument. An unknown author fails with InvalidRequest "One or more author(s) not found for update". A null column fails with a constraint violation. Success replaces exactly that book's title, pages, summary and authors with the request's, keeping its id and every other row. Failure changes nothing. |
| BookService.FindByTitleContaining | src/main/java/com/workbeattalent/books/book/BookService.java:40-44 | Title search answers exactly the stored books whose title contains the keyword ignoring case, no book twice, ordered by least author first name. |
| BookService.FindByAuthorName | src/main/java/com/workbeattalent/books/book/BookService.java:46-53 | A null author id fails with NullArgument. An unknown author id fails with InvalidRequest "Author not found. So, unable to retrieve related books". Otherwise the result is exactly the stored books with an author matching the first or last name ignoring case. |
| BookService.StoreLinksAuthors | src/main/java/com/workbeattalent/books/author/Author.java:29-31 | After a store the new book appears among the books of exactly its requested authors; every author's other books are unchanged. |
| BookService.DeleteUnlinksAuthors | src/main/java/com/workbeattalent/books/book/Book.java:30-37 | After a delete the book leaves every author's books and nothing else changes. |
| BookService.UpdateRelinksAuthors | src/main/java/com/workbeattalent/books/book/Book.java:30-37 | After an update the book is among the books of exactly its new authors. |
| BookService.DeleteHidesBook | src/main/java/com/workbeattalent/books/book/BookService.java:55-68 | Right after a delete the book is not found by id, is in no listing or search result, and the next store does not hand its id out again. |
| BookService.Apply | src/main/java/com/workbeattalent/books/book/Book.java:17-19 | One write (store, update, delete, or author registration under a generated UUID) keeps the invariant, never moves the IDENTITY counter back, and only adds book keys at or above it. |
| BookService.Run | src/main/java/com/workbeattalent/books/book/Book.java:17-19 | Any sequence of writes keeps the invariant and never moves the IDENTITY counter back, and a key below the counter that is free stays free. |
| BookService.DeletedBookStaysGone | src/main/java/com/workbeattalent/books/book/BookService.java:22-68 | Whatever writes follow a delete, findById on the deleted id fails with NotFound and no store hands that id out again. |
| BookService.IdCheckAndNameFilterDiverge | src/main/java/com/workbeattalent/books/book/BookService.java:46-53 | The author-name search checks the request's id but filters by its names: a request with any stored author's id and another author's first name returns that other author's book. |
| BookService.DivergenceWitness | src/main/java/com/workbeattalent/books/book/BookService.java:46-53 | A valid catalog meets those conditions with a book that the author named by the id did not write. |
| Api.CreateBook | src/main/java/com/workbeattalent/books/rest/ApiController.java:23-26 | An invalid body is refused with all its violations and nothing is written. Creation succeeds exactly for a well-formed body whose authors all exist and whose summary is present. A created book always has at least one author. |
| Api.UpdateBook | src/main/java/com/workbeattalent/books/rest/ApiController.java:43-46 | Validation comes before the existence check. An invalid body is refused even for a missing book. A valid body for a missing book gives NotFound. Success happens exactly for a well-formed body, an existing book, existing authors and a present summary, and leaves the book with at least one author. |
| Api.RegisterAuthor | src/main/java/com/workbeattalent/books/rest/AuthorController.java:21-24 | An invalid author body is refused with its violations. Registration succeeds exactly for a valid body with a present, unused email. It then adds exactly one author, under a fresh id, holding the request's firstname, lastname and email, and echoes them in the response. Books, other authors and the IDENTITY counter are unchanged. Failure changes nothing. |
| Api.WritesKeepAuthored | src/main/java/com/workbeattalent/books/dto/BookRequest.java:23-25 | Through the controllers, creates, updates and deletes keep every stored book authored. |
| Api.EmptyAuthorIdsRefused | src/test/java/com/workbeattalent/books/rest/ApiControllerTest.java:130-146 | An empty author-id set is refused with the "at least 01 author" violation, reported under the field "authorIds" with the message "A book must have at least 01 author", and nothing is written. |
| Api.ServiceStoresAuthorlessBook | src/main/java/com/workbeattalent/books/book/BookService.java:22-31 | Called directly, the service stores a book with an empty author-id set, since zero resolved authors equals zero requested. |
| Api.NullSummaryRefusedByStorage | src/main/java/com/workbeattalent/books/book/Book.java:27-28 | A request without a summary passes validation and is then refused by the NOT NULL summary column, with nothing written. |

## Left out

- HTTP transport is not modelled: routing, status codes and the `ApiError` body. `GlobalApiErrorExceptionHandler` collapses violations into a field-to-message map; when two rules fire on one field (an empty title), which message survives is unspecified, so the model keeps the whole violation set, and `Validation.Report` gives the (field, message) pairs before they are folded into the map.
- `WebController` and `OpenApiConfig` are not modelled; they carry no catalog logic.
- BookService.Store: `toBook` copies the request's id into the entity, and JPA would then merge onto an existing row. The model always inserts under the next IDENTITY value, the outcome when the id is null.
- BookRepository.FindByTitleContaining: a row per (book, author) join row is not modelled. The SQL join can return a book once per matching author; the model returns each matching book once.
- BookService.FindAll: the repository's `findAll` is called without a sort, so the database chooses the row order; the model takes the list order to be ascending id (insertion) order. `Catalog.Select` carries the same assumption for every query it serves.
- BookRepository.FindByAuthorsName: join duplicates are likewise not modelled, and the result order is taken as id order, though the query has no ORDER BY.
- BookRepository.Sort: the database collation is modelled as a binary (character-code) order. A book is ordered by its least author first name, and books without authors sort first. The relative order of equal keys is not specified by the database.
- Text.Lower: case folding covers ASCII letters only; Java's and the database's full Unicode folding is not modelled.
- Text.IsTrimmable: `@NotBlank` tests that `trim()` leaves something, and `trim()` removes every code up to U+0020; this is modelled exactly. Strings are sequences of code points, not UTF-16 units.
- Validation.ValidateAuthor: the whole `@Email` check, including the explicit empty `regexp` attribute it is declared with, is library code; the parameter `validEmail` stands for it, and which addresses it accepts is not modelled.
- Author UUIDs are abstract natural numbers; `AuthorService.NewAuthorId` returns one not in use, standing for random generation.
- Java `Integer` and `Long` ranges are not modelled: pages and book ids are unbounded integers. String length is measured in characters, not UTF-16 code units.
- Exception messages that append the offending id ("No Book found with id: " + id) are modelled without the id suffix.
- Spring Data's refusal of a null id or id set (`IllegalArgumentException`) and its treatment of a null query parameter as IS NULL follow the framework's documented behaviour; that framework code is not part of this model, and the messages of those refusals are placeholders.
- Transactions, concurrency, lazy loading and the persistence context are not modelled: every operation is atomic.
- `AuthorController`'s author lookup route maps directly onto `AuthorService.FindById` and adds no logic.
- The service's `exists` call has no definition in `AuthorService.java`; it is modelled as key membership, as the tests stub it.
