/** The two derived queries of BookRepository.java: title substring ignoring
    case ordered by author first name, and author first-or-last name match
    ignoring case. Duplicate rows produced by the join are not modelled:
    every matching book appears once. */
module BookRepository {
  import opened Wrappers
  import opened Text
  import opened Authors
  import opened Books
  import opened Catalog

  /** The sort key of the title query: the least first name among the
      book's authors, None (sorted first, as SQL nulls are) when it has no
      author. */
  ghost function LeastFirstname(s: set<Author>): (r: Option<string>)
    ensures r.None? <==> s == {}
    ensures r.Some? ==> exists a :: a in s && a.firstname == r.value
    ensures r.Some? ==> forall a :: a in s ==> NameLe(r.value, a.firstname)
    decreases s
  {
    if s == {} then None
    else
      var a :| a in s;
      var rest := LeastFirstname(s - {a});
      if rest.None? then
        assert s == {a};
        NameLeReflexive(a.firstname);
        Some(a.firstname)
      else if NameLe(a.firstname, rest.value) then
        BelowAll(a.firstname, rest.value, s - {a});
        NameLeReflexive(a.firstname);
        Some(a.firstname)
      else
        NameLeTotal(a.firstname, rest.value);
        Some(rest.value)
  }

  lemma BelowAll(x: string, y: string, s: set<Author>)
    requires NameLe(x, y)
    requires forall a :: a in s ==> NameLe(y, a.firstname)
    ensures forall a :: a in s ==> NameLe(x, a.firstname)
  {
    forall a | a in s
      ensures NameLe(x, a.firstname)
    {
      NameLeTransitive(x, y, a.firstname);
    }
  }

  /** Ascending order on sort keys, nulls first. */
  predicate KeyLe(x: Option<string>, y: Option<string>)
  {
    x.None? || (y.Some? && NameLe(x.value, y.value))
  }

  lemma KeyLeTotal(x: Option<string>, y: Option<string>)
    ensures KeyLe(x, y) || KeyLe(y, x)
  {
    if x.Some? && y.Some? {
      NameLeTotal(x.value, y.value);
    }
  }

  lemma KeyLeTransitive(x: Option<string>, y: Option<string>, z: Option<string>)
    requires KeyLe(x, y) && KeyLe(y, z)
    ensures KeyLe(x, z)
  {
    if x.Some? {
      NameLeTransitive(x.value, y.value, z.value);
    }
  }

  ghost function SortKey(b: Book): Option<string>
  {
    LeastFirstname(b.authors)
  }

  ghost predicate SortedByKey(s: seq<Book>)
  {
    forall i, j :: 0 <= i < j < |s| ==> KeyLe(SortKey(s[i]), SortKey(s[j]))
  }

  /** A book whose key is at most every key of a sorted sequence can go in
      front of it. */
  lemma ConsSorted(b: Book, s: seq<Book>)
    requires SortedByKey(s)
    requires forall x :: x in s ==> KeyLe(SortKey(b), SortKey(x))
    ensures SortedByKey([b] + s)
  {
    var t := [b] + s;
    forall i, j | 0 <= i < j < |t|
      ensures KeyLe(SortKey(t[i]), SortKey(t[j]))
    {
      assert t[j] == s[j - 1];
      if i == 0 {
        assert s[j - 1] in s;
      } else {
        assert t[i] == s[i - 1];
      }
    }
  }

  /** Places b before the first book whose key is not below b's. */
  ghost function Insert(b: Book, s: seq<Book>): (r: seq<Book>)
    requires SortedByKey(s)
    ensures SortedByKey(r)
    ensures multiset(r) == multiset(s) + multiset{b}
    decreases |s|
  {
    if s == [] then [b]
    else if KeyLe(SortKey(b), SortKey(s[0])) then
      FrontIsLeast(b, s);
      [b] + s
    else
      var rest := Insert(b, s[1..]);
      KeyLeTotal(SortKey(b), SortKey(s[0]));
      HeadIsLeast(b, s, rest);
      assert s == [s[0]] + s[1..];
      [s[0]] + rest
  }

  lemma FrontIsLeast(b: Book, s: seq<Book>)
    requires SortedByKey(s) && |s| > 0
    requires KeyLe(SortKey(b), SortKey(s[0]))
    ensures SortedByKey([b] + s)
  {
    forall x | x in s
      ensures KeyLe(SortKey(b), SortKey(x))
    {
      var j :| 0 <= j < |s| && s[j] == x;
      if j > 0 {
        KeyLeTransitive(SortKey(b), SortKey(s[0]), SortKey(x));
      }
    }
    ConsSorted(b, s);
  }

  lemma HeadIsLeast(b: Book, s: seq<Book>, rest: seq<Book>)
    requires SortedByKey(s) && |s| > 0 && SortedByKey(rest)
    requires KeyLe(SortKey(s[0]), SortKey(b))
    requires multiset(rest) == multiset(s[1..]) + multiset{b}
    ensures SortedByKey([s[0]] + rest)
  {
    forall x | x in rest
      ensures KeyLe(SortKey(s[0]), SortKey(x))
    {
      assert x in multiset(rest);
      if x != b {
        assert x in multiset(s[1..]);
        var j :| 0 <= j < |s[1..]| && s[1..][j] == x;
        assert s[j + 1] == x;
      }
    }
    ConsSorted(s[0], rest);
  }

  /** Insertion sort by sort key; equal keys keep their relative order. */
  ghost function Sort(s: seq<Book>): (r: seq<Book>)
    ensures SortedByKey(r)
    ensures multiset(r) == multiset(s)
    decreases |s|
  {
    if s == [] then []
    else
      assert s == [s[0]] + s[1..];
      Insert(s[0], Sort(s[1..]))
  }

  /** A sequence in which some element occurs twice counts it twice. */
  lemma RepeatCounted(s: seq<Book>, i: int, j: int)
    requires 0 <= i < j < |s| && s[i] == s[j]
    ensures multiset(s)[s[i]] >= 2
  {
    assert s == s[..i] + [s[i]] + s[i + 1..j] + [s[j]] + s[j + 1..];
  }

  /** A sequence with strictly ascending ids counts every book at most once. */
  lemma {:induction false} AscendingCountsOnce(s: seq<Book>)
    requires forall i, j :: 0 <= i < j < |s| ==> s[i].id < s[j].id
    ensures forall b :: multiset(s)[b] <= 1
  {
    if s != [] {
      AscendingCountsOnce(s[1..]);
      assert s == [s[0]] + s[1..];
      forall b
        ensures multiset(s)[b] <= 1
      {
        if b == s[0] {
          assert b !in s[1..];
        }
      }
    }
  }

  predicate TitleMatches(b: Book, keyword: string)
  {
    ContainsIgnoreCase(b.title, keyword)
  }

  /** findByTitleContainingIgnoreCaseOrderByAuthors_FirstnameAsc. */
  ghost function FindByTitleContaining(c: Catalog, keyword: string): (r: seq<Book>)
    requires Valid(c)
    ensures forall b :: b in r <==> b in c.books.Values && TitleMatches(b, keyword)
    ensures SortedByKey(r)
    ensures forall i, j :: 0 <= i < j < |r| ==> r[i].id != r[j].id
  {
    var rows := Select(c, b => TitleMatches(b, keyword));
    var r := Sort(rows);
    PermutationMembers(rows, r);
    PermutationKeepsIdsDistinct(c, rows, r);
    r
  }

  /** A permutation has the same members. */
  lemma PermutationMembers(s: seq<Book>, t: seq<Book>)
    requires multiset(t) == multiset(s)
    ensures forall b :: b in t <==> b in s
  {
    forall b
      ensures b in t <==> b in s
    {
      assert b in t <==> b in multiset(t);
      assert b in s <==> b in multiset(s);
    }
  }

  /** Reordering stored rows listed in ascending id order never puts two
      rows with the same id in the result. */
  lemma PermutationKeepsIdsDistinct(c: Catalog, rows: seq<Book>, r: seq<Book>)
    requires Valid(c)
    requires forall i :: 0 <= i < |rows| ==> rows[i].id in c.books && c.books[rows[i].id] == rows[i]
    requires forall i, j :: 0 <= i < j < |rows| ==> rows[i].id < rows[j].id
    requires multiset(r) == multiset(rows)
    ensures forall i, j :: 0 <= i < j < |r| ==> r[i].id != r[j].id
  {
    AscendingCountsOnce(rows);
    PermutationMembers(rows, r);
    forall i, j | 0 <= i < j < |r|
      ensures r[i].id != r[j].id
    {
      if r[i] == r[j] {
        RepeatCounted(r, i, j);
      } else {
        assert r[i] in rows && r[j] in rows;
        var a :| 0 <= a < |rows| && rows[a] == r[i];
        var b :| 0 <= b < |rows| && rows[b] == r[j];
      }
    }
  }

  /** A derived-query equality on a nullable column, ignoring case. A null
      parameter compares as IS NULL. */
  predicate ColumnEqualsIgnoreCase(column: Option<string>, param: Option<string>)
  {
    match param
    case None => column.None?
    case Some(p) => column.Some? && EqualsIgnoreCase(column.value, p)
  }

  /** Authors_FirstnameIgnoreCase Or Authors_LastnameIgnoreCase. */
  predicate NameMatches(a: Author, firstname: Option<string>, lastname: Option<string>)
  {
    ColumnEqualsIgnoreCase(Some(a.firstname), firstname) || ColumnEqualsIgnoreCase(a.lastname, lastname)
  }

  predicate WrittenByName(b: Book, firstname: Option<string>, lastname: Option<string>)
  {
    exists a :: a in b.authors && NameMatches(a, firstname, lastname)
  }

  /** findByAuthors_FirstnameIgnoreCaseOrAuthors_LastnameIgnoreCase, in
      ascending id order, which the model assumes since the query has no
      ORDER BY. */
  function FindByAuthorsName(c: Catalog, firstname: Option<string>, lastname: Option<string>): (r: seq<Book>)
    requires Valid(c)
    ensures forall b :: b in r <==> b in c.books.Values && WrittenByName(b, firstname, lastname)
    ensures forall i, j :: 0 <= i < j < |r| ==> r[i].id < r[j].id
  {
    Select(c, b => WrittenByName(b, firstname, lastname))
  }

  /** The name filter is a disjunction: an author matching the first name
      alone brings in the book, whatever the last name. */
  lemma FirstnameAloneMatches(c: Catalog, b: Book, a: Author, firstname: string, lastname: Option<string>)
    requires Valid(c) && b in c.books.Values && a in b.authors
    requires EqualsIgnoreCase(a.firstname, firstname)
    ensures b in FindByAuthorsName(c, Some(firstname), lastname)
  {
  }

  /** Names that match no author of any book give an empty list. */
  lemma NoMatchingAuthorNoBooks(c: Catalog, firstname: Option<string>, lastname: Option<string>)
    requires Valid(c)
    requires forall b, a :: b in c.books.Values && a in b.authors ==> !NameMatches(a, firstname, lastname)
    ensures FindByAuthorsName(c, firstname, lastname) == []
  {
    forall k | k in c.books
      ensures !WrittenByName(c.books[k], firstname, lastname)
    {
      assert c.books[k] in c.books.Values;
    }
  }

  /** A keyword that occurs in no title gives an empty list. */
  lemma NoMatchingTitleNoBooks(c: Catalog, keyword: string)
    requires Valid(c)
    requires forall b :: b in c.books.Values ==> !TitleMatches(b, keyword)
    ensures FindByTitleContaining(c, keyword) == []
  {
  }

  /** "sPRing" occurs in "Learning Spring Boot 3.0" up to case. */
  lemma SpringMatchesIgnoringCase()
    ensures ContainsIgnoreCase("Learning Spring Boot 3.0", "sPRing")
  {
    var t := Lower("Learning Spring Boot 3.0");
    var k := Lower("sPRing");
    assert k == "spring";
    assert t[9..15] == "spring";
    assert OccursAt(k, t, 9);
  }
}
