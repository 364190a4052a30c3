/** The request and response records exchanged with the REST layer. */
module Dto {
  import opened Wrappers
  import opened Authors
  import opened Books

  datatype BookRequest = BookRequest(
    id: Option<BookId>,
    title: Option<string>,
    pages: Option<int>,
    summary: Option<string>,
    authorIds: Option<set<AuthorId>>)

  datatype BookResponse = BookResponse(
    id: Option<BookId>,
    title: Option<string>,
    pages: Option<int>,
    summary: Option<string>,
    authors: set<Author>)

  datatype AuthorRequest = AuthorRequest(
    id: Option<AuthorId>,
    firstname: Option<string>,
    lastname: Option<string>,
    email: Option<string>)

  datatype AuthorResponse = AuthorResponse(
    id: Option<AuthorId>,
    firstname: Option<string>,
    lastname: Option<string>,
    email: Option<string>)
}
