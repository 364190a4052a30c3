/** The controllers' one piece of logic (ApiController.java,
    AuthorController.java): a request body is validated before the service is
    called, and an invalid one never reaches it. Composing the two is what
    guarantees every stored book at least one author. */
module Api {
  import opened Wrappers
  import opened Authors
  import opened Books
  import opened Dto
  import opened Validation
  import opened Catalog
  import AuthorService
  import BookService

  /** POST /api/v1/books. */
  function CreateBook(c: Catalog, req: BookRequest): (r: Step<BookResponse>)
    requires Valid(c)
    ensures Valid(r.next)
    ensures !WellFormedBookRequest(req) ==> r == Step(Err(BadRequest(ValidateBook(req))), c)
    ensures r.result.Ok? <==> && WellFormedBookRequest(req)
                              && req.authorIds.value <= c.authors.Keys && req.summary.Some?
    ensures r.result.Err? ==> r.next == c
    ensures r.result.Ok? ==> && r.result.value.id.Some? && r.result.value.id.value in r.next.books
                             && r.result.value.authors != {} && r.next.books[r.result.value.id.value].authors != {}
  {
    var violations := ValidateBook(req);
    if violations != {} then Step(Err(BadRequest(violations)), c)
    else
      var r := BookService.Store(c, req);
      assert r.result.Ok? ==> AuthorIds(r.next.books[r.result.value.id.value]) != {};
      r
  }

  /** PUT /api/v1/books/{id}: validation comes before the existence check,
      so an invalid body is refused even for a missing book. */
  function UpdateBook(c: Catalog, id: BookId, req: BookRequest): (r: Step<BookResponse>)
    requires Valid(c)
    ensures Valid(r.next)
    ensures !WellFormedBookRequest(req) ==> r == Step(Err(BadRequest(ValidateBook(req))), c)
    ensures WellFormedBookRequest(req) && id !in c.books ==> r.result.Err? && r.result.error.NotFound?
    ensures r.result.Ok? <==> && WellFormedBookRequest(req) && id in c.books
                              && req.authorIds.value <= c.authors.Keys && req.summary.Some?
    ensures r.result.Err? ==> r.next == c
    ensures r.result.Ok? ==> id in r.next.books && r.result.value.authors != {} && r.next.books[id].authors != {}
  {
    var violations := ValidateBook(req);
    if violations != {} then Step(Err(BadRequest(violations)), c)
    else
      var r := BookService.Update(c, id, req);
      assert r.result.Ok? ==> AuthorIds(r.next.books[id]) != {};
      r
  }

  /** POST /api/v1/authors. */
  method RegisterAuthor(c: Catalog, req: AuthorRequest, validEmail: string -> bool) returns (r: Step<AuthorResponse>)
    requires Valid(c)
    ensures Valid(r.next)
    ensures ValidateAuthor(req, validEmail) != {} ==> r == Step(Err(BadRequest(ValidateAuthor(req, validEmail))), c)
    ensures r.result.Ok? <==> && ValidateAuthor(req, validEmail) == {}
                              && req.email.Some? && !EmailTaken(c.authors, req.email.value)
    ensures r.result.Err? ==> r.next == c
    ensures r.result.Ok? ==>
      && r.result.value.id.Some? && r.result.value.id.value !in c.authors
      && r.result.value == AuthorResponse(r.result.value.id, req.firstname, req.lastname, req.email)
      && r.next.books == c.books
      && r.next.nextBookId == c.nextBookId
      && r.next.authors == c.authors[r.result.value.id.value :=
           Author(r.result.value.id.value, req.firstname.value, req.lastname, req.email.value)]
  {
    var violations := ValidateAuthor(req, validEmail);
    if violations != {} {
      r := Step(Err(BadRequest(violations)), c);
    } else {
      r := AuthorService.Create(c, req);
    }
  }

  /** Invariant I2: every stored book has an author. */
  predicate AllAuthored(c: Catalog)
  {
    forall k :: k in c.books ==> c.books[k].authors != {}
  }

  /** The validated writes and the delete keep every book authored. */
  lemma WritesKeepAuthored(c: Catalog, req: BookRequest, id: BookId, other: BookId)
    requires Valid(c) && AllAuthored(c)
    ensures AllAuthored(CreateBook(c, req).next)
    ensures AllAuthored(UpdateBook(c, id, req).next)
    ensures AllAuthored(BookService.Delete(c, other).next)
  {
    CreateKeepsAuthored(c, req);
    UpdateKeepsAuthored(c, id, req);
  }

  lemma CreateKeepsAuthored(c: Catalog, req: BookRequest)
    requires Valid(c) && AllAuthored(c)
    ensures AllAuthored(CreateBook(c, req).next)
  {
  }

  lemma UpdateKeepsAuthored(c: Catalog, id: BookId, req: BookRequest)
    requires Valid(c) && AllAuthored(c)
    ensures AllAuthored(UpdateBook(c, id, req).next)
  {
  }

  /** An empty author-id set is refused at the controller, with the
      "at least 01 author" message, and nothing is written. */
  lemma EmptyAuthorIdsRefused(c: Catalog, req: BookRequest)
    requires Valid(c) && req.authorIds == Some({})
    ensures CreateBook(c, req).next == c
    ensures CreateBook(c, req).result.Err?
    ensures CreateBook(c, req).result.error.BadRequest?
    ensures AuthorIdsEmpty in CreateBook(c, req).result.error.violations
    ensures ("authorIds", "A book must have at least 01 author") in Report(CreateBook(c, req).result.error.violations)
  {
  }

  /** The service on its own does not refuse an empty author-id set: 0 == 0
      passes the cardinality check and an authorless book is stored. */
  lemma ServiceStoresAuthorlessBook(c: Catalog, title: string, pages: int, summary: string)
    requires Valid(c)
    ensures var r := BookService.Store(c, BookRequest(None, Some(title), Some(pages), Some(summary), Some({})));
            r.result.Ok? && r.result.value.authors == {}
  {
  }

  /** A book request's summary is optional, but the summary column is NOT
      NULL: a valid request without a summary passes validation and is then
      refused by the table. */
  lemma NullSummaryRefusedByStorage(c: Catalog, req: BookRequest)
    requires Valid(c) && WellFormedBookRequest(req) && req.authorIds.value <= c.authors.Keys
    requires req.summary.None?
    ensures ValidateBook(req) == {}
    ensures CreateBook(c, req) == Step(Err(ConstraintViolation(NotNullMessage)), c)
  {
  }
}
