/** The storage collaborator: the author and book tables as immutable maps,
    the database's consistency invariant, and the primitive reads and writes
    the repositories perform (save, findAll, findById, delete). */
module Catalog {
  import opened Wrappers
  import opened Authors
  import opened Books
  import opened Validation

  /** The failures the services surface, by kind. */
  datatype Error =
    | NotFound(message: string)              // EntityElementNotFoundException
    | InvalidRequest(message: string)        // BookManagementInvalidException
    | NullArgument(message: string)          // a repository rejecting a null id or id set
    | ConstraintViolation(message: string)   // a NOT NULL or UNIQUE column refusing the write
    | BadRequest(violations: set<Violation>) // request validation failed; the service never ran

  /** The two tables. nextBookId is the IDENTITY column's next value. */
  datatype Catalog = Catalog(authors: Registry, books: map<BookId, Book>, nextBookId: BookId)

  /** The outcome of a write together with the state after it. */
  datatype Step<+T> = Step(result: Result<T, Error>, next: Catalog)

  /** What the database guarantees of every reachable state. */
  predicate Valid(c: Catalog)
  {
    && WellKeyed(c.authors)
    && UniqueEmails(c.authors)
    && 0 < c.nextBookId
    && (forall k :: k in c.books ==> c.books[k].id == k && 0 < k < c.nextBookId)
    && (forall k :: k in c.books ==> Registered(c.authors, c.books[k].authors))
  }

  /** The empty database. */
  function Empty(): (c: Catalog)
    ensures Valid(c) && c.authors == map[] && c.books == map[]
  {
    Catalog(map[], map[], 1)
  }

  const NotNullMessage := "NULL not allowed for column"
  const UniqueEmailMessage := "Unique index or primary key violation: email"

  /** Persists a new book under the next IDENTITY value. The entity's own id
      is not used. A null title, pages or summary is refused by the table. */
  function InsertBook(c: Catalog, e: BookEntity): (r: Step<Book>)
    requires Valid(c)
    ensures r.result.Ok? <==> Persistable(e)
    ensures r.result.Err? ==> r.next == c && r.result.error == ConstraintViolation(NotNullMessage)
    ensures r.result.Ok? ==>
      && r.result.value.id !in c.books
      && c.nextBookId <= r.result.value.id < r.next.nextBookId
      && Loaded(r.result.value) == e.(id := Some(r.result.value.id))
      && r.next.books == c.books[r.result.value.id := r.result.value]
      && r.next.authors == c.authors
    ensures Registered(c.authors, e.authors) ==> Valid(r.next)
  {
    if !Persistable(e) then Step(Err(ConstraintViolation(NotNullMessage)), c)
    else
      var id := c.nextBookId;
      var row := RowOf(e, id);
      Step(Ok(row), c.(books := c.books[id := row], nextBookId := id + 1))
  }

  /** Writes back an existing book under its key. */
  function SaveBook(c: Catalog, id: BookId, e: BookEntity): (r: Step<Book>)
    requires Valid(c) && id in c.books && e.id == Some(id)
    ensures r.result.Ok? <==> Persistable(e)
    ensures r.result.Err? ==> r.next == c && r.result.error == ConstraintViolation(NotNullMessage)
    ensures r.result.Ok? ==>
      && Loaded(r.result.value) == e
      && r.next == c.(books := c.books[id := r.result.value])
    ensures Registered(c.authors, e.authors) ==> Valid(r.next)
  {
    if !Persistable(e) then Step(Err(ConstraintViolation(NotNullMessage)), c)
    else
      var row := RowOf(e, id);
      Step(Ok(row), c.(books := c.books[id := row]))
  }

  /** Persists a new author under a fresh key; the NOT NULL columns and the
      UNIQUE email column can refuse it. */
  function InsertAuthor(c: Catalog, e: AuthorEntity, id: AuthorId): (r: Step<Author>)
    requires Valid(c) && id !in c.authors
    ensures r.result.Ok? <==> e.firstname.Some? && e.email.Some? && !EmailTaken(c.authors, e.email.value)
    ensures r.result.Err? ==> r.next == c && r.result.error.ConstraintViolation?
    ensures r.result.Ok? ==>
      && r.result.value == Author(id, e.firstname.value, e.lastname, e.email.value)
      && r.next == c.(authors := c.authors[id := r.result.value])
    ensures Valid(r.next)
  {
    if e.firstname.None? || e.email.None? then Step(Err(ConstraintViolation(NotNullMessage)), c)
    else if EmailTaken(c.authors, e.email.value) then Step(Err(ConstraintViolation(UniqueEmailMessage)), c)
    else
      var a := Author(id, e.firstname.value, e.lastname, e.email.value);
      var next := c.(authors := c.authors[id := a]);
      assert forall k :: k in next.books ==> Registered(next.authors, next.books[k].authors) by {
        forall k | k in next.books
          ensures Registered(next.authors, next.books[k].authors)
        {
          assert Registered(c.authors, c.books[k].authors);
        }
      }
      Step(Ok(a), next)
  }

  predicate Increasing(s: seq<BookId>)
  {
    forall i, j :: 0 <= i < j < |s| ==> s[i] < s[j]
  }

  /** Prepending a key below all others keeps a sequence ascending. */
  lemma ConsIncreasing(x: BookId, s: seq<BookId>)
    requires Increasing(s)
    requires forall k :: k in s ==> x < k
    ensures Increasing([x] + s)
  {
    var t := [x] + s;
    forall i, j | 0 <= i < j < |t|
      ensures t[i] < t[j]
    {
      assert t[j] == s[j - 1];
      if i > 0 {
        assert t[i] == s[i - 1];
      } else {
        assert s[j - 1] in s;
      }
    }
  }

  /** The head of an ascending sequence can be put back in front of any
      ascending selection from its tail. */
  lemma HeadBelowTail(ids: seq<BookId>, rest: seq<BookId>)
    requires |ids| > 0 && Increasing(ids) && Increasing(rest)
    requires forall k :: k in rest ==> k in ids[1..]
    ensures Increasing([ids[0]] + rest)
  {
    forall k | k in rest
      ensures ids[0] < k
    {
      var j :| 0 <= j < |ids[1..]| && ids[1..][j] == k;
      assert ids[j + 1] == k;
    }
    ConsIncreasing(ids[0], rest);
  }

  /** The keys of dom in [lo, hi), in ascending order. */
  function IdsBetween(dom: set<BookId>, lo: BookId, hi: BookId): (r: seq<BookId>)
    ensures Increasing(r)
    ensures forall k :: k in r <==> k in dom && lo <= k < hi
    decreases hi - lo
  {
    if lo >= hi then []
    else
      var rest := IdsBetween(dom, lo + 1, hi);
      if lo in dom then ConsIncreasing(lo, rest); [lo] + rest else rest
  }

  /** The keys of the book table in IDENTITY (that is, insertion) order.
      The repository's findAll issues no ORDER BY, so the database may return
      rows in any order; the model assumes this one. */
  function AllIds(c: Catalog): (r: seq<BookId>)
    requires Valid(c)
    ensures Increasing(r)
    ensures forall k :: k in r <==> k in c.books
  {
    IdsBetween(c.books.Keys, 1, c.nextBookId)
  }

  /** The ids of ids that satisfy keep, in their original order. */
  function Filter(ids: seq<BookId>, keep: BookId -> bool): (r: seq<BookId>)
    ensures forall k :: k in r <==> k in ids && keep(k)
    ensures Increasing(ids) ==> Increasing(r)
    ensures |r| <= |ids|
    ensures (forall k :: k in ids ==> !keep(k)) ==> r == []
  {
    if ids == [] then []
    else
      var rest := Filter(ids[1..], keep);
      if !keep(ids[0]) then rest
      else if Increasing(ids) then HeadBelowTail(ids, rest); [ids[0]] + rest
      else [ids[0]] + rest
  }

  /** The rows under the given keys, in the given order. */
  function Rows(c: Catalog, ids: seq<BookId>): (r: seq<Book>)
    requires forall i :: 0 <= i < |ids| ==> ids[i] in c.books
    ensures |r| == |ids|
    ensures forall i :: 0 <= i < |ids| ==> r[i] == c.books[ids[i]]
    ensures Valid(c) ==> forall i :: 0 <= i < |r| ==> r[i].id == ids[i]
  {
    seq(|ids|, i requires 0 <= i < |ids| => c.books[ids[i]])
  }

  /** A stored book sits under its own id. */
  lemma StoredUnderOwnId(c: Catalog, b: Book)
    requires Valid(c) && b in c.books.Values
    ensures b.id in c.books && c.books[b.id] == b
  {
    assert forall k :: k in c.books ==> c.books[k].id == k;
    var k :| k in c.books && c.books[k] == b;
  }

  /** The stored books satisfying keep, in ascending id order: the order the
      model assumes for queries without ORDER BY. */
  function Select(c: Catalog, keep: Book -> bool): (r: seq<Book>)
    requires Valid(c)
    ensures forall b :: b in r <==> b in c.books.Values && keep(b)
    ensures forall i :: 0 <= i < |r| ==> r[i].id in c.books && c.books[r[i].id] == r[i]
    ensures forall i, j :: 0 <= i < j < |r| ==> r[i].id < r[j].id
    ensures (forall k :: k in c.books ==> !keep(c.books[k])) ==> r == []
  {
    var ids := Filter(AllIds(c), k => k in c.books && keep(c.books[k]));
    var r := Rows(c, ids);
    assert forall b :: b in c.books.Values && keep(b) ==> b.id in ids && c.books[b.id] == b;
    assert forall i :: 0 <= i < |ids| ==> ids[i] in ids;
    r
  }

  /** The inverse side of the association (Author.books, mappedBy): the books
      whose author set holds the given author. It is derived, never stored. */
  function BooksOf(c: Catalog, author: AuthorId): set<BookId>
  {
    set k | k in c.books && author in AuthorIds(c.books[k])
  }
}
