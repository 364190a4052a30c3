/** The author record (Author.java): a UUID key, a required first name, an
    optional last name and a required, unique email. An author's books are
    not stored on the author; they are derived from the books' author sets
    (see Catalog.BooksOf). */
module Authors {
  import opened Wrappers

  /** A generated UUID, abstracted to an opaque natural number. */
  type AuthorId = nat

  /** An author as stored: firstname and email are NOT NULL columns. */
  datatype Author = Author(id: AuthorId, firstname: string, lastname: Option<string>, email: string)

  /** The Java entity before it is saved: any field may be null and no id is
      assigned yet. */
  datatype AuthorEntity = AuthorEntity(
    id: Option<AuthorId>,
    firstname: Option<string>,
    lastname: Option<string>,
    email: Option<string>)

  /** The author table, keyed by id. */
  type Registry = map<AuthorId, Author>

  /** Every row sits under its own id. */
  predicate WellKeyed(reg: Registry)
  {
    forall k :: k in reg ==> reg[k].id == k
  }

  /** The UNIQUE constraint on the email column. */
  predicate UniqueEmails(reg: Registry)
  {
    forall j, k :: j in reg && k in reg && j != k ==> reg[j].email != reg[k].email
  }

  predicate EmailTaken(reg: Registry, email: string)
  {
    exists k :: k in reg && reg[k].email == email
  }

  /** Every author of s is a row of the registry, as stored. */
  predicate Registered(reg: Registry, s: set<Author>)
  {
    forall a :: a in s ==> a.id in reg && reg[a.id] == a
  }
}
