/** The book operations (BookService.java): store, findAll, findById,
    delete, update and the two searches. Writes return the outcome and the
    next state; reads are functions of the state and so cannot change it. */
module BookService {
  import opened Wrappers
  import opened Text
  import opened Authors
  import opened Books
  import opened Dto
  import opened EntityDtoMapper
  import opened Catalog
  import AuthorService
  import BookRepository

  const AuthorsNotFoundMessage := "One or more author not found"
  const UpdateAuthorsNotFoundMessage := "One or more author(s) not found for update"
  const BookNotFoundMessage := "No Book found with id: "
  const DeleteNotFoundMessage := "Unable to delete book with id: "
  const UpdateNotFoundMessage := "Unable to find book with ID: "
  const AuthorUnknownMessage := "Author not found. So, unable to retrieve related books"
  /** The framework's own texts for a null id set and a null id are not
      part of this model; these two stand in for them. */
  const NullIdsMessage := "null author id set"
  const NullIdMessage := "null author id"

  /** mapper.fromBook applied to a stored row. */
  function Response(b: Book): BookResponse
  {
    FromBook(Loaded(b))
  }

  function Responses(rows: seq<Book>): (r: seq<BookResponse>)
    ensures |r| == |rows|
    ensures forall i :: 0 <= i < |rows| ==> r[i] == Response(rows[i])
  {
    seq(|rows|, i requires 0 <= i < |rows| => Response(rows[i]))
  }

  /** The book the store holds under id has exactly the request's title,
      pages and summary, and its authors are the stored authors with the
      requested ids. */
  predicate Holds(c: Catalog, id: BookId, req: BookRequest)
  {
    && id in c.books
    && req.authorIds.Some?
    && Some(c.books[id].title) == req.title
    && Some(c.books[id].pages) == req.pages
    && Some(c.books[id].summary) == req.summary
    && AuthorIds(c.books[id]) == req.authorIds.value
    && Registered(c.authors, c.books[id].authors)
  }

  /** The resolved authors of fully present ids are registered and carry
      exactly those ids. */
  lemma ResolvedAuthorIds(reg: Registry, ids: set<AuthorId>)
    requires WellKeyed(reg) && ids <= reg.Keys
    ensures Registered(reg, AuthorService.FindAll(reg, ids))
    ensures (set a | a in AuthorService.FindAll(reg, ids) :: a.id) == ids
  {
    var found := AuthorService.FindAll(reg, ids);
    forall k | k in ids
      ensures k in (set a | a in found :: a.id)
    {
      assert reg[k] in found;
    }
  }

  /** store(request): resolves the author ids; if every one is a stored
      author, saves a new book under a fresh id with the request's fields and
      those authors. Otherwise nothing is written. */
  function Store(c: Catalog, req: BookRequest): (r: Step<BookResponse>)
    requires Valid(c)
    ensures Valid(r.next)
    ensures r.result.Ok? <==> && req.authorIds.Some? && req.authorIds.value <= c.authors.Keys
                              && req.title.Some? && req.pages.Some? && req.summary.Some?
    ensures req.authorIds.None? ==> r.result == Err(NullArgument(NullIdsMessage))
    ensures req.authorIds.Some? && !(req.authorIds.value <= c.authors.Keys) ==>
              r.result == Err(NotFound(AuthorsNotFoundMessage))
    ensures && req.authorIds.Some? && req.authorIds.value <= c.authors.Keys
            && !(req.title.Some? && req.pages.Some? && req.summary.Some?) ==>
              r.result == Err(ConstraintViolation(NotNullMessage))
    ensures r.result.Err? ==> r.next == c
    ensures r.result.Ok? ==>
      && r.result.value.id.Some?
      && var id := r.result.value.id.value;
      && id !in c.books
      && c.nextBookId <= id < r.next.nextBookId
      && r.next.authors == c.authors
      && r.next.books.Keys == c.books.Keys + {id}
      && (forall k :: k in c.books ==> r.next.books[k] == c.books[k])
      && Holds(r.next, id, req)
      && r.result.value == Response(r.next.books[id])
  {
    match req.authorIds
    case None => Step(Err(NullArgument(NullIdsMessage)), c)
    case Some(ids) =>
      var authors := AuthorService.FindAll(c.authors, ids);
      AuthorService.ResolvesAll(c.authors, ids);
      if |authors| != |ids| then Step(Err(NotFound(AuthorsNotFoundMessage)), c)
      else
        ResolvedAuthorIds(c.authors, ids);
        var saved := InsertBook(c, ToBook(req).(authors := authors));
        match saved.result
        case Ok(b) => Step(Ok(Response(b)), saved.next)
        case Err(e) => Step(Err(e), c)
  }

  /** The responses to a selection of stored rows are the responses of the
      stored books it selects, each selected book answered. */
  lemma ResponsesOfSelection(c: Catalog, rows: seq<Book>, keep: Book -> bool)
    requires Valid(c)
    requires forall b :: b in rows <==> b in c.books.Values && keep(b)
    ensures forall i :: 0 <= i < |rows| ==>
              && Responses(rows)[i].id.Some? && Responses(rows)[i].id.value in c.books
              && Responses(rows)[i] == Response(c.books[Responses(rows)[i].id.value])
              && keep(c.books[Responses(rows)[i].id.value])
    ensures forall k :: k in c.books && keep(c.books[k]) ==>
              exists i :: 0 <= i < |rows| && Responses(rows)[i].id == Some(k)
  {
    var r := Responses(rows);
    forall i | 0 <= i < |rows|
      ensures r[i].id.Some? && r[i].id.value in c.books && r[i] == Response(c.books[r[i].id.value])
      ensures keep(c.books[r[i].id.value])
    {
      assert rows[i] in rows;
      StoredUnderOwnId(c, rows[i]);
    }
    forall k | k in c.books && keep(c.books[k])
      ensures exists i :: 0 <= i < |rows| && r[i].id == Some(k)
    {
      assert c.books[k] in rows;
      var i :| 0 <= i < |rows| && rows[i] == c.books[k];
      assert r[i].id == Some(k);
    }
  }

  /** findAll(): every stored book once. The repository call has no sort, so
      the order is the database's; the model assumes ascending id order. */
  function FindAll(c: Catalog): (r: seq<BookResponse>)
    requires Valid(c)
    ensures forall i :: 0 <= i < |r| ==>
              r[i].id.Some? && r[i].id.value in c.books && r[i] == Response(c.books[r[i].id.value])
    ensures forall i, j :: 0 <= i < j < |r| ==> r[i].id.value < r[j].id.value
    ensures forall k :: k in c.books ==> exists i :: 0 <= i < |r| && r[i].id == Some(k)
  {
    var rows := Select(c, b => true);
    ResponsesOfSelection(c, rows, b => true);
    Responses(rows)
  }

  /** findById(id): the stored book, or NotFound. */
  function FindById(c: Catalog, id: BookId): (r: Result<BookResponse, Error>)
    requires Valid(c)
    ensures r.Ok? <==> id in c.books
    ensures r.Ok? ==> r.value == Response(c.books[id]) && r.value.id == Some(id)
    ensures r.Err? ==> r.error == NotFound(BookNotFoundMessage)
  {
    if id in c.books then Ok(Response(c.books[id])) else Err(NotFound(BookNotFoundMessage))
  }

  /** delete(id): removes that book and its association entries and returns
      its id. Authors are never removed (no REMOVE cascade). */
  function Delete(c: Catalog, id: BookId): (r: Step<BookId>)
    requires Valid(c)
    ensures Valid(r.next)
    ensures r.result.Ok? <==> id in c.books
    ensures r.result.Ok? ==>
      && r.result.value == id
      && r.next.books.Keys == c.books.Keys - {id}
      && (forall k :: k in r.next.books ==> r.next.books[k] == c.books[k])
      && r.next.authors == c.authors
      && r.next.nextBookId == c.nextBookId
    ensures r.result.Err? ==> r.next == c && r.result.error == NotFound(DeleteNotFoundMessage)
  {
    if id in c.books then
      var next := c.(books := c.books - {id});
      Step(Ok(c.books[id].id), next)
    else Step(Err(NotFound(DeleteNotFoundMessage)), c)
  }

  /** update(id, request): the book must exist (checked first); then its
      author ids must all resolve; then title, pages, summary and authors are
      replaced together. The request's own id is ignored. */
  function Update(c: Catalog, id: BookId, req: BookRequest): (r: Step<BookResponse>)
    requires Valid(c)
    ensures Valid(r.next)
    ensures id !in c.books ==> r == Step(Err(NotFound(UpdateNotFoundMessage)), c)
    ensures id in c.books && req.authorIds.None? ==> r.result == Err(NullArgument(NullIdsMessage))
    ensures id in c.books && req.authorIds.Some? && !(req.authorIds.value <= c.authors.Keys) ==>
              r.result == Err(InvalidRequest(UpdateAuthorsNotFoundMessage))
    ensures && id in c.books && req.authorIds.Some? && req.authorIds.value <= c.authors.Keys
            && !(req.title.Some? && req.pages.Some? && req.summary.Some?) ==>
              r.result == Err(ConstraintViolation(NotNullMessage))
    ensures r.result.Ok? <==> && id in c.books
                              && req.authorIds.Some? && req.authorIds.value <= c.authors.Keys
                              && req.title.Some? && req.pages.Some? && req.summary.Some?
    ensures r.result.Err? ==> r.next == c
    ensures r.result.Ok? ==>
      && r.next.authors == c.authors
      && r.next.nextBookId == c.nextBookId
      && r.next.books.Keys == c.books.Keys
      && (forall k :: k in c.books && k != id ==> r.next.books[k] == c.books[k])
      && Holds(r.next, id, req)
      && r.next.books[id].id == id
      && r.result.value == Response(r.next.books[id])
  {
    if id !in c.books then Step(Err(NotFound(UpdateNotFoundMessage)), c)
    else
      match req.authorIds
      case None => Step(Err(NullArgument(NullIdsMessage)), c)
      case Some(ids) =>
        var authors := AuthorService.FindAll(c.authors, ids);
        AuthorService.ResolvesAll(c.authors, ids);
        if |authors| == |ids| then
          ResolvedAuthorIds(c.authors, ids);
          var e := Loaded(c.books[id]).(title := req.title, pages := req.pages, summary := req.summary, authors := authors);
          var saved := SaveBook(c, id, e);
          match saved.result
          case Ok(b) => Step(Ok(Response(b)), saved.next)
          case Err(err) => Step(Err(err), c)
        else Step(Err(InvalidRequest(UpdateAuthorsNotFoundMessage)), c)
  }

  /** findByTitleContaining(keyword): the books whose title contains the
      keyword up to case, ordered by least author first name. */
  ghost function FindByTitleContaining(c: Catalog, keyword: string): (r: seq<BookResponse>)
    requires Valid(c)
    ensures forall i :: 0 <= i < |r| ==>
              && r[i].id.Some? && r[i].id.value in c.books
              && r[i] == Response(c.books[r[i].id.value])
              && ContainsIgnoreCase(c.books[r[i].id.value].title, keyword)
    ensures forall k :: k in c.books && ContainsIgnoreCase(c.books[k].title, keyword) ==>
              exists i :: 0 <= i < |r| && r[i].id == Some(k)
    ensures forall i, j :: 0 <= i < j < |r| ==>
              r[i].id != r[j].id && BookRepository.KeyLe(BookRepository.LeastFirstname(r[i].authors), BookRepository.LeastFirstname(r[j].authors))
  {
    var rows := BookRepository.FindByTitleContaining(c, keyword);
    ResponsesOfSelection(c, rows, b => BookRepository.TitleMatches(b, keyword));
    Responses(rows)
  }

  /** findByAuthorName(request): the request's author id must be a stored
      author, or the search is refused; then the books having an author whose
      first name or last name equals the request's, up to case. */
  function FindByAuthorName(c: Catalog, req: AuthorRequest): (r: Result<seq<BookResponse>, Error>)
    requires Valid(c)
    ensures req.id.None? ==> r == Err(NullArgument(NullIdMessage))
    ensures req.id.Some? && req.id.value !in c.authors ==> r == Err(InvalidRequest(AuthorUnknownMessage))
    ensures r.Ok? <==> req.id.Some? && req.id.value in c.authors
    ensures r.Ok? ==> forall i :: 0 <= i < |r.value| ==>
              && r.value[i].id.Some? && r.value[i].id.value in c.books
              && r.value[i] == Response(c.books[r.value[i].id.value])
              && BookRepository.WrittenByName(c.books[r.value[i].id.value], req.firstname, req.lastname)
    ensures r.Ok? ==> forall k :: k in c.books && BookRepository.WrittenByName(c.books[k], req.firstname, req.lastname) ==>
              exists i :: 0 <= i < |r.value| && r.value[i].id == Some(k)
  {
    match req.id
    case None => Err(NullArgument(NullIdMessage))
    case Some(aid) =>
      if !AuthorService.Exists(c.authors, aid) then Err(InvalidRequest(AuthorUnknownMessage))
      else
        var rows := BookRepository.FindByAuthorsName(c, req.firstname, req.lastname);
        ResponsesOfSelection(c, rows, b => BookRepository.WrittenByName(b, req.firstname, req.lastname));
        Ok(Responses(rows))
  }

  /** The inverse side follows a store: the new book is among the books of
      exactly its requested authors. */
  lemma StoreLinksAuthors(c: Catalog, req: BookRequest, aid: AuthorId)
    requires Valid(c) && Store(c, req).result.Ok?
    ensures var r := Store(c, req);
            var id := r.result.value.id.value;
            BooksOf(r.next, aid) == BooksOf(c, aid) + (if aid in req.authorIds.value then {id} else {})
  {
  }

  /** The inverse side follows a delete: the book leaves every author's books
      and nothing else changes. */
  lemma DeleteUnlinksAuthors(c: Catalog, id: BookId, aid: AuthorId)
    requires Valid(c) && Delete(c, id).result.Ok?
    ensures BooksOf(Delete(c, id).next, aid) == BooksOf(c, aid) - {id}
  {
  }

  /** The inverse side follows an update: the book is among the books of
      exactly its new authors. */
  lemma UpdateRelinksAuthors(c: Catalog, id: BookId, req: BookRequest, aid: AuthorId)
    requires Valid(c) && Update(c, id, req).result.Ok?
    ensures BooksOf(Update(c, id, req).next, aid) ==
              (BooksOf(c, aid) - {id}) + (if aid in req.authorIds.value then {id} else {})
  {
  }

  /** Right after a delete the book is gone: findById fails, no listing or
      search shows it, and the next store does not hand its id out again. */
  lemma DeleteHidesBook(c: Catalog, id: BookId, req: BookRequest)
    requires Valid(c) && Delete(c, id).result.Ok?
    ensures var next := Delete(c, id).next;
            && FindById(next, id) == Err(NotFound(BookNotFoundMessage))
            && (forall i :: 0 <= i < |FindAll(next)| ==> FindAll(next)[i].id != Some(id))
            && (forall kw :: forall i :: 0 <= i < |FindByTitleContaining(next, kw)| ==>
                  FindByTitleContaining(next, kw)[i].id != Some(id))
            && (forall q: AuthorRequest :: FindByAuthorName(next, q).Ok? ==>
                  forall i :: 0 <= i < |FindByAuthorName(next, q).value| ==> FindByAuthorName(next, q).value[i].id != Some(id))
            && (Store(next, req).result.Ok? ==> Store(next, req).result.value.id != Some(id))
  {
  }

  /** A write a client can issue: a book store, update or delete, or an
      author registration under the UUID the generator picked. */
  datatype Write =
    | StoreBook(req: BookRequest)
    | UpdateBook(id: BookId, req: BookRequest)
    | DeleteBook(id: BookId)
    | CreateAuthor(author: AuthorRequest, uuid: AuthorId)

  /** The state after one write. A UUID that collides with a stored key is
      refused by the primary key and changes nothing. */
  function Apply(c: Catalog, w: Write): (r: Catalog)
    requires Valid(c)
    ensures Valid(r)
    ensures c.nextBookId <= r.nextBookId
    ensures forall k :: k in r.books && k !in c.books ==> c.nextBookId <= k
  {
    match w
    case StoreBook(req) => Store(c, req).next
    case UpdateBook(id, req) => Update(c, id, req).next
    case DeleteBook(id) => Delete(c, id).next
    case CreateAuthor(req, uuid) =>
      if uuid in c.authors then c else InsertAuthor(c, ToAuthor(req), uuid).next
  }

  /** The state after a sequence of writes. The IDENTITY counter never goes
      back, and a key below it that is free stays free: a book id, once
      issued and deleted, is never issued again. */
  function Run(c: Catalog, ws: seq<Write>): (r: Catalog)
    requires Valid(c)
    ensures Valid(r)
    ensures c.nextBookId <= r.nextBookId
    ensures forall k :: k < c.nextBookId && k !in c.books ==> k !in r.books
    decreases |ws|
  {
    if ws == [] then c else Run(Apply(c, ws[0]), ws[1..])
  }

  /** A deleted book stays gone whatever is written afterwards: findById
      fails on it and no later store hands its id out again. */
  lemma DeletedBookStaysGone(c: Catalog, id: BookId, ws: seq<Write>, req: BookRequest)
    requires Valid(c) && Delete(c, id).result.Ok?
    ensures var later := Run(Delete(c, id).next, ws);
            && FindById(later, id) == Err(NotFound(BookNotFoundMessage))
            && (Store(later, req).result.Ok? ==> Store(later, req).result.value.id != Some(id))
  {
  }

  /** The search checks the request's author id but filters by its names,
      and the two need not agree: a request carrying a stored author's id
      and another author's first name returns that other author's book,
      which the author with the given id did not write. */
  lemma IdCheckAndNameFilterDiverge(c: Catalog, aid: AuthorId, k: BookId, a: Author, name: string)
    requires Valid(c) && aid in c.authors && k in c.books
    requires a in c.books[k].authors && EqualsIgnoreCase(a.firstname, name)
    ensures var r := FindByAuthorName(c, AuthorRequest(Some(aid), Some(name), None, None));
            r.Ok? && Response(c.books[k]) in r.value
  {
    var req := AuthorRequest(Some(aid), Some(name), None, None);
    assert BookRepository.WrittenByName(c.books[k], req.firstname, req.lastname) by {
      assert BookRepository.NameMatches(a, Some(name), None);
    }
    var r := FindByAuthorName(c, req);
    var i :| 0 <= i < |r.value| && r.value[i].id == Some(k);
    assert r.value[i] == Response(c.books[k]);
  }

  /** A catalog where that happens: author 1 ("Ann") is stored, and the only
      book is written by author 2 ("Bo") alone. */
  lemma DivergenceWitness()
    ensures var ann := Author(1, "Ann", None, "ann@example.org");
            var bo := Author(2, "Bo", None, "bo@example.org");
            var c := Catalog(map[1 := ann, 2 := bo], map[1 := Book(1, "Distributed Systems", 300, "", {bo})], 2);
            && Valid(c) && 1 in c.authors && 1 in c.books && 1 !in AuthorIds(c.books[1])
            && bo in c.books[1].authors && EqualsIgnoreCase(bo.firstname, "bo")
  {
    var bo := Author(2, "Bo", None, "bo@example.org");
    assert Lower("Bo") == Lower("bo");
    assert (set a | a in {bo} :: a.id) == {2};
  }
}
