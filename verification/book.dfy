/** The book record (Book.java): an IDENTITY key, NOT NULL title, pages and
    summary, and the set of its authors. The association is owned by the
    book (join table books_authors keyed by book_id and author_id). */
module Books {
  import opened Wrappers
  import opened Authors

  /** A Long key generated by the database. */
  type BookId = int

  /** A book as stored. Pages carries no sign constraint. */
  datatype Book = Book(id: BookId, title: string, pages: int, summary: string, authors: set<Author>)

  /** The Java entity before it is saved: every column may still be null;
      the author set defaults to empty. */
  datatype BookEntity = BookEntity(
    id: Option<BookId>,
    title: Option<string>,
    pages: Option<int>,
    summary: Option<string>,
    authors: set<Author>)

  function AuthorIds(b: Book): set<AuthorId>
  {
    set a | a in b.authors :: a.id
  }

  /** The entity a stored row loads as. */
  function Loaded(b: Book): BookEntity
  {
    BookEntity(Some(b.id), Some(b.title), Some(b.pages), Some(b.summary), b.authors)
  }

  /** The NOT NULL columns of the book table are all set. */
  predicate Persistable(e: BookEntity)
  {
    e.title.Some? && e.pages.Some? && e.summary.Some?
  }

  /** The row written for a persistable entity under the given key. */
  function RowOf(e: BookEntity, id: BookId): (b: Book)
    requires Persistable(e)
    ensures Loaded(b) == e.(id := Some(id))
  {
    Book(id, e.title.value, e.pages.value, e.summary.value, e.authors)
  }
}
