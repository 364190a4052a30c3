/** The Bean Validation rules on the request records (BookRequest.java,
    AuthorRequest.java). Each rule that fails contributes one violation;
    all violations of a request are reported together. */
module Validation {
  import opened Wrappers
  import opened Text
  import opened Authors
  import opened Books
  import opened Dto

  datatype Violation =
    | TitleRequired      // @NotBlank on BookRequest.title
    | TitleTooShort      // @Size(min = 2) on BookRequest.title
    | PagesRequired      // @NotNull on BookRequest.pages
    | AuthorIdsRequired  // @NotNull on BookRequest.authorIds
    | AuthorIdsEmpty     // @Size(min = 1) on BookRequest.authorIds
    | FirstnameRequired  // @NotBlank on AuthorRequest.firstname
    | FirstnameTooShort  // @Size(min = 2) on AuthorRequest.firstname
    | InvalidEmail       // @Email on AuthorRequest.email

  /** The request field a violation is reported under. */
  function Field(v: Violation): string
  {
    match v
    case TitleRequired | TitleTooShort => "title"
    case PagesRequired => "pages"
    case AuthorIdsRequired | AuthorIdsEmpty => "authorIds"
    case FirstnameRequired | FirstnameTooShort => "firstname"
    case InvalidEmail => "email"
  }

  /** The violations a book request can carry: those of its title, pages and
      authorIds fields. */
  const BookViolations: set<Violation> := {TitleRequired, TitleTooShort, PagesRequired, AuthorIdsRequired, AuthorIdsEmpty}

  /** The violations an author request can carry: those of its firstname and
      email fields. */
  const AuthorViolations: set<Violation> := {FirstnameRequired, FirstnameTooShort, InvalidEmail}

  /** The message declared on the annotation. */
  function Message(v: Violation): string
  {
    match v
    case TitleRequired => "Book title is required"
    case TitleTooShort => "Book title should be on at least 02 characters"
    case PagesRequired => "Book page numbers is required"
    case AuthorIdsRequired => "Please provide an authors id list"
    case AuthorIdsEmpty => "A book must have at least 01 author"
    case FirstnameRequired => "Author firstname is required"
    case FirstnameTooShort => "Author firstname should be on at least 02 characters"
    case InvalidEmail => "Invalid email"
  }

  /** The field-and-message pairs a validation failure reports, one per
      violation, before the error handler folds them into a map by field. */
  function Report(vs: set<Violation>): (r: set<(string, string)>)
    ensures forall v :: v in vs ==> (Field(v), Message(v)) in r
    ensures |r| == |vs|
  {
    MessagesIdentifyViolations();
    ReportCardinality(vs);
    set v | v in vs :: (Field(v), Message(v))
  }

  /** No two violations share a message, so a message names its rule. The
      eight messages even differ in length. */
  lemma MessagesIdentifyViolations()
    ensures forall v, w :: Message(v) == Message(w) ==> v == w
  {
    forall v, w | Message(v) == Message(w)
      ensures v == w
    {
      assert |Message(v)| == |Message(w)|;
      match v
      case TitleRequired => assert |Message(w)| == 22;
      case TitleTooShort => assert |Message(w)| == 46;
      case PagesRequired => assert |Message(w)| == 29;
      case AuthorIdsRequired => assert |Message(w)| == 33;
      case AuthorIdsEmpty => assert |Message(w)| == 35;
      case FirstnameRequired => assert |Message(w)| == 28;
      case FirstnameTooShort => assert |Message(w)| == 52;
      case InvalidEmail => assert |Message(w)| == 13;
    }
  }

  lemma {:induction false} ReportCardinality(vs: set<Violation>)
    requires forall v, w :: Message(v) == Message(w) ==> v == w
    ensures |set v | v in vs :: (Field(v), Message(v))| == |vs|
    decreases vs
  {
    if vs != {} {
      var x :| x in vs;
      ReportCardinality(vs - {x});
      var img := set v | v in vs :: (Field(v), Message(v));
      var img' := set v | v in vs - {x} :: (Field(v), Message(v));
      assert img == img' + {(Field(x), Message(x))};
      assert (Field(x), Message(x)) !in img';
    }
  }

  /** The report loses nothing: two violation sets with the same report are
      the same set. */
  lemma ReportDeterminesViolations(vs: set<Violation>, ws: set<Violation>)
    requires Report(vs) == Report(ws)
    ensures vs == ws
  {
    MessagesIdentifyViolations();
    forall v | v in vs
      ensures v in ws
    {
      assert (Field(v), Message(v)) in Report(ws);
    }
    forall w | w in ws
      ensures w in vs
    {
      assert (Field(w), Message(w)) in Report(vs);
    }
  }

  /** @NotBlank: non-null and non-empty once trimmed. */
  predicate NotBlank(s: Option<string>)
  {
    s.Some? && !IsBlank(s.value)
  }

  /** @Size(min = n) on a string: null is accepted. */
  predicate SizeAtLeast(s: Option<string>, n: nat)
  {
    s.None? || |s.value| >= n
  }

  /** A name both rules accept: non-null, at least two characters, and not
      blank. */
  predicate NameValid(s: Option<string>)
  {
    s.Some? && |s.value| >= 2 && exists i :: 0 <= i < |s.value| && !IsTrimmable(s.value[i])
  }

  /** The two rules on a required, at-least-two-character name field. */
  function NameViolations(s: Option<string>, required: Violation, tooShort: Violation): (r: set<Violation>)
    requires required != tooShort
    ensures r <= {required, tooShort}
    ensures s.None? ==> r == {required}
    ensures s.Some? && !IsBlank(s.value) && |s.value| < 2 ==> r == {tooShort}
    ensures required in r <==> !NotBlank(s)
    ensures tooShort in r <==> s.Some? && |s.value| < 2
    ensures r == {} <==> NameValid(s)
  {
    (if NotBlank(s) then {} else {required}) + (if SizeAtLeast(s, 2) then {} else {tooShort})
  }

  /** A book request the controller lets through: a title of at least two
      characters with some character trim() keeps, a page count, and a
      non-empty set of author ids. Summary and id are free. */
  predicate WellFormedBookRequest(req: BookRequest)
  {
    && NameValid(req.title)
    && req.pages.Some?
    && req.authorIds.Some? && req.authorIds.value != {}
  }

  /** The @NotNull rule on pages; the minimum-pages rule is commented out in
      the source, so any integer passes. */
  function PagesViolations(pages: Option<int>): (r: set<Violation>)
    ensures r == {} <==> pages.Some?
    ensures r <= {PagesRequired}
  {
    if pages.Some? then {} else {PagesRequired}
  }

  /** @NotNull and @Size(min = 1) on the author id set. */
  function AuthorIdsViolations(ids: Option<set<AuthorId>>): (r: set<Violation>)
    ensures ids.None? ==> r == {AuthorIdsRequired}
    ensures ids == Some({}) ==> r == {AuthorIdsEmpty}
    ensures r == {} <==> ids.Some? && ids.value != {}
  {
    if ids.None? then {AuthorIdsRequired}
    else if |ids.value| < 1 then {AuthorIdsEmpty}
    else {}
  }

  function ValidateBook(req: BookRequest): (r: set<Violation>)
    ensures r == {} <==> WellFormedBookRequest(req)
    ensures req.title.None? ==> TitleRequired in r && TitleTooShort !in r
    ensures req.title.Some? && !IsBlank(req.title.value) && |req.title.value| < 2 ==> TitleTooShort in r && TitleRequired !in r
    ensures TitleRequired in r <==> !NotBlank(req.title)
    ensures TitleTooShort in r <==> req.title.Some? && |req.title.value| < 2
    ensures PagesRequired in r <==> req.pages.None?
    ensures AuthorIdsRequired in r <==> req.authorIds.None?
    ensures AuthorIdsEmpty in r <==> req.authorIds == Some({})
    ensures r <= BookViolations
  {
    var t := NameViolations(req.title, TitleRequired, TitleTooShort);
    var p := PagesViolations(req.pages);
    var a := AuthorIdsViolations(req.authorIds);
    UnionOfFields(t, p, a);
    t + p + a
  }

  /** The title, pages and authorIds violations are drawn from disjoint
      sets, so their union shows each one exactly when its field shows it. */
  lemma UnionOfFields(t: set<Violation>, p: set<Violation>, a: set<Violation>)
    requires t <= {TitleRequired, TitleTooShort}
    requires p <= {PagesRequired}
    requires a <= {AuthorIdsRequired, AuthorIdsEmpty}
    ensures t + p + a == {} <==> t == {} && p == {} && a == {}
    ensures TitleRequired in t + p + a <==> TitleRequired in t
    ensures TitleTooShort in t + p + a <==> TitleTooShort in t
    ensures PagesRequired in t + p + a <==> PagesRequired in p
    ensures AuthorIdsRequired in t + p + a <==> AuthorIdsRequired in a
    ensures AuthorIdsEmpty in t + p + a <==> AuthorIdsEmpty in a
    ensures t + p + a <= BookViolations
  {
  }

  /** The author rules. The email syntax check of @Email is library code and
      is a parameter here; a null email passes it. */
  function ValidateAuthor(req: AuthorRequest, validEmail: string -> bool): (r: set<Violation>)
    ensures req.firstname.None? ==> FirstnameRequired in r && FirstnameTooShort !in r
    ensures req.firstname.Some? && !IsBlank(req.firstname.value) && |req.firstname.value| < 2 ==> FirstnameTooShort in r && FirstnameRequired !in r
    ensures FirstnameRequired in r <==> !NotBlank(req.firstname)
    ensures FirstnameTooShort in r <==> req.firstname.Some? && |req.firstname.value| < 2
    ensures InvalidEmail in r <==> req.email.Some? && !validEmail(req.email.value)
    ensures r == {} <==> NameValid(req.firstname) && (req.email.None? || validEmail(req.email.value))
    ensures r <= AuthorViolations
  {
    NameViolations(req.firstname, FirstnameRequired, FirstnameTooShort)
    + (if req.email.Some? && !validEmail(req.email.value) then {InvalidEmail} else {})
  }

  /** The id and lastname of an author request, and the id and summary of a
      book request, are never looked at. */
  lemma UnconstrainedFields(b: BookRequest, a: AuthorRequest, validEmail: string -> bool,
                            bookId: Option<BookId>, summary: Option<string>,
                            authorId: Option<AuthorId>, lastname: Option<string>)
    ensures ValidateBook(b.(id := bookId, summary := summary)) == ValidateBook(b)
    ensures ValidateAuthor(a.(id := authorId, lastname := lastname), validEmail) == ValidateAuthor(a, validEmail)
  {
  }

  /** Control characters count as blank, as trim() removes them: a title of
      two NUL characters is refused as missing, not as too short. */
  lemma ControlCharactersAreBlank()
    ensures ValidateBook(BookRequest(None, Some("\0\0"), Some(1), None, Some({7}))) == {TitleRequired}
  {
    assert !NotBlank(Some("\0\0"));
  }

  /** Any page count, zero and negative ones included, passes. */
  lemma AnyPageCountAccepted(req: BookRequest, n: int)
    ensures ValidateBook(req.(pages := Some(n))) == ValidateBook(req) - {PagesRequired}
  {
  }
}
