/** The Authors endpoints: two reads, each decided from what the repository's
    read produced. Both are functions, so neither can change the store. */
module Authors {
  import opened Wrappers
  import opened Entities
  import opened Http
  import opened Store

  /** GET api/Authors, given what FindAll produced. */
  function GetAuthors(listing: Try<seq<Author>>): (r: Reply<seq<AuthorDto>>)
    ensures r.result.StatusCode() in {200, 500}
    ensures r.result.Ok? <==> listing.Returned?
    ensures r.result.Ok? ==>
              |r.result.value| == |listing.value| &&
              forall i :: 0 <= i < |listing.value| ==> r.result.value[i] == AuthorToDto(listing.value[i])
    ensures listing.Threw? ==> IsServerError(r.result) && Error(Exception(listing.message)) in r.log
    ensures listing.Returned? ==> NoErrors(r.log)
  {
    match listing
    case Threw(m) => After([Info], InternalError(Exception(m)))
    case Returned(authors) => Reply(Ok(MapAuthors(authors)), [Info, Info])
  }

  /** GET api/Authors/{id} as written: the one author found is mapped into a
      list. `mapperFault` says whether that mapping throws (no rule maps an
      author to a list); when it does not, the body is a list of one author. */
  function GetAuthor(found: Try<Option<Author>>, mapperFault: Option<string>): (r: Reply<seq<AuthorDto>>)
    ensures r.result.StatusCode() in {200, 404, 500}
    ensures r.result.NotFound? <==> found.Returned? && found.value.None?
    ensures r.result.Ok? <==> found.Returned? && found.value.Some? && mapperFault.None?
    ensures r.result.Ok? ==> r.result.value == [AuthorToDto(found.value.value)]
    ensures IsServerError(r.result) <==> found.Threw? || (found.value.Some? && mapperFault.Some?)
    ensures found.Threw? ==> Error(Exception(found.message)) in r.log
    ensures found.Returned? && found.value.Some? && mapperFault.Some? ==>
              Error(Exception(mapperFault.value)) in r.log
    ensures NoErrors(r.log) <==> !IsServerError(r.result)
  {
    match found
    case Threw(m) => After([Info], InternalError(Exception(m)))
    case Returned(None) => Reply(NotFound, [Info, Warn])
    case Returned(Some(author)) =>
      match mapperFault
      case Some(m) => After([Info], InternalError(Exception(m)))
      case None => Reply(Ok(MapAuthors([author])), [Info, Info])
  }

  /** GET api/Authors/{id} answering with the single author's read shape, as
      GET api/Books/{id} does for a book. */
  function GetAuthorSingle(found: Try<Option<Author>>): (r: Reply<AuthorDto>)
    ensures r.result.StatusCode() in {200, 404, 500}
    ensures r.result.NotFound? <==> found.Returned? && found.value.None?
    ensures r.result.Ok? <==> found.Returned? && found.value.Some?
    ensures r.result.Ok? ==> r.result.value == AuthorToDto(found.value.value)
    ensures found.Threw? ==> IsServerError(r.result) && Error(Exception(found.message)) in r.log
    ensures found.Returned? ==> NoErrors(r.log)
  {
    match found
    case Threw(m) => After([Info], InternalError(Exception(m)))
    case Returned(None) => Reply(NotFound, [Info, Warn])
    case Returned(Some(author)) => Reply(Ok(AuthorToDto(author)), [Info, Info])
  }

  /** When the list mapping does not throw, the endpoint as written differs
      from the single-author one only in wrapping the body in a list: same
      status, same log. */
  lemma AsWrittenWrapsBodyInList(found: Try<Option<Author>>)
    ensures GetAuthor(found, None).result.StatusCode() == GetAuthorSingle(found).result.StatusCode()
    ensures GetAuthor(found, None).log == GetAuthorSingle(found).log
    ensures GetAuthor(found, None).result.Ok? ==>
              GetAuthor(found, None).result.value == [GetAuthorSingle(found).result.value]
  {
  }

  /** When the list mapping throws, every stored author is answered with the
      fixed 500, where the single-author endpoint answers 200 with it. */
  lemma AsWrittenFailsOnFoundAuthor(authors: map<int, Author>, id: int, m: string)
    requires id in authors
    ensures IsServerError(GetAuthor(Lookup(authors, id, None), Some(m)).result)
    ensures GetAuthorSingle(Lookup(authors, id, None)).result == Ok(AuthorToDto(authors[id]))
  {
  }

  /** The reply depends only on FindById's outcome, and the controller puts no
      range check in front of it: for any int id, zero and negative ones
      included, a store that does not throw decides the reply by whether it
      holds the id. */
  lemma AnyIdIsLookedUp(authors: map<int, Author>, id: int)
    ensures GetAuthorSingle(Lookup(authors, id, None)).result.Ok? <==> id in authors
    ensures GetAuthorSingle(Lookup(authors, id, None)).result.NotFound? <==> id !in authors
    ensures GetAuthor(Lookup(authors, id, None), None).result.Ok? <==> id in authors
  {
  }

  /** The author GET by id answers with is the one GET all lists for it. */
  lemma AuthorByIdIsListed(authors: map<int, Author>, listed: seq<Author>, id: int)
    requires Lists(authors, listed) && id in authors
    ensures GetAuthorSingle(Lookup(authors, id, None)).result.Ok?
    ensures GetAuthorSingle(Lookup(authors, id, None)).result.value in GetAuthors(Returned(listed)).result.value
  {
  }

  /** Listing an empty store is 200 with no authors, not 404. */
  lemma EmptyStoreListsNoAuthors(listed: seq<Author>)
    requires Lists(map[], listed)
    ensures GetAuthors(Returned(listed)).result == Ok([])
  {
  }
}
