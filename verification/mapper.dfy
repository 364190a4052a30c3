/** Field-copying conversions between requests, entities and responses
    (EntityDtoMapper.java). */
module EntityDtoMapper {
  import opened Wrappers
  import opened Authors
  import opened Books
  import opened Dto

  /** Copies id, title, pages and summary; the author set starts empty. */
  function ToBook(r: BookRequest): (e: BookEntity)
    ensures e.id == r.id && e.title == r.title && e.pages == r.pages && e.summary == r.summary
    ensures e.authors == {}
  {
    BookEntity(r.id, r.title, r.pages, r.summary, {})
  }

  /** Copies all five fields. */
  function FromBook(e: BookEntity): (r: BookResponse)
    ensures r.id == e.id && r.title == e.title && r.pages == e.pages && r.summary == e.summary
    ensures r.authors == e.authors
  {
    BookResponse(e.id, e.title, e.pages, e.summary, e.authors)
  }

  /** Copies firstname, lastname and email; the request id is never copied. */
  function ToAuthor(r: AuthorRequest): (e: AuthorEntity)
    ensures e.id.None?
    ensures e.firstname == r.firstname && e.lastname == r.lastname && e.email == r.email
  {
    AuthorEntity(None, r.firstname, r.lastname, r.email)
  }

  /** The entity a stored author loads as. */
  function LoadedAuthor(a: Author): AuthorEntity
  {
    AuthorEntity(Some(a.id), Some(a.firstname), a.lastname, Some(a.email))
  }

  /** Copies id, firstname, lastname and email. */
  function FromAuthor(e: AuthorEntity): (r: AuthorResponse)
    ensures r.id == e.id && r.firstname == e.firstname && r.lastname == e.lastname && r.email == e.email
  {
    AuthorResponse(e.id, e.firstname, e.lastname, e.email)
  }

  /** Mapping a request to an entity and straight back keeps id, title, pages
      and summary, and shows no author. */
  lemma BookRoundTrip(r: BookRequest)
    ensures FromBook(ToBook(r)) == BookResponse(r.id, r.title, r.pages, r.summary, {})
  {
  }

  /** The author round trip keeps the names and email and loses the id. */
  lemma AuthorRoundTrip(r: AuthorRequest)
    ensures FromAuthor(ToAuthor(r)) == AuthorResponse(None, r.firstname, r.lastname, r.email)
  {
  }

  /** FromBook loses nothing: distinct entities give distinct responses. */
  lemma FromBookInjective(e1: BookEntity, e2: BookEntity)
    requires FromBook(e1) == FromBook(e2)
    ensures e1 == e2
  {
  }

  /** A stored author's response carries its id and all its columns. */
  lemma StoredAuthorResponse(a: Author)
    ensures FromAuthor(LoadedAuthor(a)) == AuthorResponse(Some(a.id), Some(a.firstname), a.lastname, Some(a.email))
  {
  }
}
