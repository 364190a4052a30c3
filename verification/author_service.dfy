/** Author lookup, subset resolution and registration (AuthorService.java).
    None of the reads change the registry: they are functions of it. */
module AuthorService {
  import opened Wrappers
  import opened Authors
  import opened Dto
  import opened EntityDtoMapper
  import opened Catalog

  /** findAll(ids): the stored authors whose key is requested. An unknown id
      is skipped, never reported. */
  function FindAll(reg: Registry, ids: set<AuthorId>): (r: set<Author>)
    ensures forall k :: k in ids && k in reg ==> reg[k] in r
    ensures forall a :: a in r ==> a in reg.Values
    ensures WellKeyed(reg) ==> forall a :: a in r ==> a.id in ids && reg[a.id] == a
  {
    set k | k in ids && k in reg :: reg[k]
  }

  /** Distinct keys of a well-keyed registry hold distinct authors, so the
      authors of a set of present keys are exactly as many as the keys. */
  lemma {:induction false} ImageCardinality(reg: Registry, s: set<AuthorId>)
    requires WellKeyed(reg) && s <= reg.Keys
    ensures |(set k | k in s :: reg[k])| == |s|
    decreases s
  {
    if s != {} {
      var x :| x in s;
      var s' := s - {x};
      ImageCardinality(reg, s');
      var img := set k | k in s :: reg[k];
      var img' := set k | k in s' :: reg[k];
      assert img == img' + {reg[x]};
      assert reg[x] !in img';
    }
  }

  /** The resolved authors are as many as the requested ids that exist. */
  lemma ResolvedCount(reg: Registry, ids: set<AuthorId>)
    requires WellKeyed(reg)
    ensures |FindAll(reg, ids)| == |ids * reg.Keys|
    ensures |FindAll(reg, ids)| <= |ids|
  {
    ImageCardinality(reg, ids * reg.Keys);
    assert FindAll(reg, ids) == set k | k in ids * reg.Keys :: reg[k];
    SubsetCardinality(ids * reg.Keys, ids);
  }

  lemma {:induction false} SubsetCardinality<T>(a: set<T>, b: set<T>)
    requires a <= b
    ensures |a| <= |b|
    ensures |a| == |b| ==> a == b
    decreases b
  {
    if b != {} {
      var x :| x in b;
      if x in a {
        SubsetCardinality(a - {x}, b - {x});
        assert a == (a - {x}) + {x};
        assert b == (b - {x}) + {x};
      } else {
        SubsetCardinality(a, b - {x});
      }
    }
  }

  /** The cardinality check: the resolved authors are as many as the
      requested ids exactly when every requested id is a stored author. */
  lemma ResolvesAll(reg: Registry, ids: set<AuthorId>)
    requires WellKeyed(reg)
    ensures |FindAll(reg, ids)| == |ids| <==> ids <= reg.Keys
  {
    ResolvedCount(reg, ids);
    SubsetCardinality(ids * reg.Keys, ids);
    if ids <= reg.Keys {
      assert ids * reg.Keys == ids;
    }
  }

  /** exists(id): membership of the key. */
  function Exists(reg: Registry, id: AuthorId): (r: bool)
    ensures r <==> FindAll(reg, {id}) != {}
  {
    assert id in reg ==> reg[id] in FindAll(reg, {id});
    id in reg
  }

  const AuthorNotFoundMessage := "Unable to fetch author with ID: "

  /** findById(id): the stored author's columns, or NotFound. */
  function FindById(reg: Registry, id: AuthorId): (r: Result<AuthorResponse, Error>)
    ensures r.Ok? <==> Exists(reg, id)
    ensures r.Err? ==> r.error == NotFound(AuthorNotFoundMessage)
    ensures r.Ok? ==> r.value.firstname == Some(reg[id].firstname) && r.value.lastname == reg[id].lastname
                      && r.value.email == Some(reg[id].email)
    ensures r.Ok? && WellKeyed(reg) ==> r.value.id == Some(id)
  {
    if id in reg then Ok(FromAuthor(LoadedAuthor(reg[id])))
    else Err(NotFound(AuthorNotFoundMessage))
  }

  /** The single-key lookup agrees with subset resolution. */
  lemma FindByIdAgreesWithFindAll(reg: Registry, id: AuthorId)
    requires WellKeyed(reg)
    ensures FindById(reg, id).Ok? ==> FindAll(reg, {id}) == {reg[id]}
    ensures FindById(reg, id).Err? ==> FindAll(reg, {id}) == {}
  {
  }

  /** A UUID not yet in use. */
  method NewAuthorId(reg: Registry) returns (id: AuthorId)
    ensures id !in reg
  {
    var rest := reg.Keys;
    ghost var seen: set<AuthorId> := {};
    id := 0;
    while rest != {}
      invariant seen + rest == reg.Keys
      invariant forall k :: k in seen ==> k < id
      decreases rest
    {
      var k :| k in rest;
      if id <= k {
        id := k + 1;
      }
      rest := rest - {k};
      seen := seen + {k};
    }
  }

  /** create(request): saves a new author under a fresh key with the
      request's firstname, lastname and email; the request's id is dropped.
      The table refuses a missing firstname or email and a duplicate email. */
  method Create(c: Catalog, req: AuthorRequest) returns (r: Step<AuthorResponse>)
    requires Valid(c)
    ensures Valid(r.next)
    ensures r.result.Ok? <==> req.firstname.Some? && req.email.Some? && !EmailTaken(c.authors, req.email.value)
    ensures r.result.Err? ==> r.next == c && r.result.error.ConstraintViolation?
    ensures r.result.Ok? ==>
      && r.result.value.id.Some? && r.result.value.id.value !in c.authors
      && r.result.value == AuthorResponse(r.result.value.id, req.firstname, req.lastname, req.email)
      && r.next.books == c.books
      && r.next.nextBookId == c.nextBookId
      && r.next.authors == c.authors[r.result.value.id.value :=
           Author(r.result.value.id.value, req.firstname.value, req.lastname, req.email.value)]
  {
    var id := NewAuthorId(c.authors);
    var saved := InsertAuthor(c, ToAuthor(req), id);
    match saved.result
    case Ok(a) =>
      r := Step(Ok(FromAuthor(LoadedAuthor(a))), saved.next);
    case Err(e) =>
      r := Step(Err(e), c);
  }
}
