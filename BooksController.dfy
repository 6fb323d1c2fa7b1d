/** The Books endpoints. GetBooks and GetBook decide their reply from what the
    repository's read produced; Create, Update and Delete change the store, and
    each is a method of the controller proved to behave as its step function
    (CreateStep, UpdateStep, DeleteStep), which the lemmas at the end use. */
module Books {
  import opened Wrappers
  import opened Entities
  import opened Formatting
  import opened Http
  import opened Store

  const LocationPrefix: string := "https://localhost:44307/api/Books/"

  /** The Location of a created book: the fixed address and the id in decimal. */
  function Location(id: int): (loc: string)
    ensures |loc| > |LocationPrefix| && loc[..|LocationPrefix|] == LocationPrefix
    ensures ParseDecimal(loc[|LocationPrefix|..]) == Some(id)
  {
    var loc := LocationPrefix + DecimalString(id);
    assert loc[|LocationPrefix|..] == DecimalString(id);
    DecimalRoundTrip(id);
    loc
  }

  /** The id a Location names, if it is one of ours. */
  function IdFromLocation(loc: string): Option<int>
  {
    if |loc| >= |LocationPrefix| && loc[..|LocationPrefix|] == LocationPrefix
    then ParseDecimal(loc[|LocationPrefix|..])
    else None
  }

  /** A Location names exactly the id it was built from. */
  lemma LocationNamesId(id: int)
    ensures IdFromLocation(Location(id)) == Some(id)
  {
    var loc := Location(id);
    assert loc[..|LocationPrefix|] == LocationPrefix;
    assert loc[|LocationPrefix|..] == DecimalString(id);
    DecimalRoundTrip(id);
  }

  /** What a state-changing endpoint does: its reply, the repository calls it
      made in order, and the store afterwards. */
  datatype Step<T> = Step(reply: Reply<T>, calls: seq<RepoCall>, books: map<int, Book>)

  /** GET api/Books, given what FindAll produced. */
  function GetBooks(listing: Try<seq<Book>>): (r: Reply<seq<BookDto>>)
    ensures r.result.StatusCode() in {200, 500}
    ensures r.result.Ok? <==> listing.Returned?
    ensures r.result.Ok? ==>
              |r.result.value| == |listing.value| &&
              forall i :: 0 <= i < |listing.value| ==> r.result.value[i] == BookToDto(listing.value[i])
    ensures listing.Threw? ==> IsServerError(r.result) && Error(Exception(listing.message)) in r.log
    ensures listing.Returned? ==> NoErrors(r.log)
  {
    match listing
    case Threw(m) => After([Info], InternalError(Exception(m)))
    case Returned(books) => Reply(Ok(MapBooks(books)), [Info, Info])
  }

  /** GET api/Books/{id}, given what FindById produced. */
  function GetBook(found: Try<Option<Book>>): (r: Reply<BookDto>)
    ensures r.result.StatusCode() in {200, 404, 500}
    ensures r.result.NotFound? <==> found.Returned? && found.value.None?
    ensures r.result.Ok? <==> found.Returned? && found.value.Some?
    ensures r.result.Ok? ==> r.result.value == BookToDto(found.value.value)
    ensures found.Threw? ==> IsServerError(r.result) && Error(Exception(found.message)) in r.log
    ensures found.Returned? ==> NoErrors(r.log)
  {
    match found
    case Threw(m) => After([Info], InternalError(Exception(m)))
    case Returned(None) => Reply(NotFound, [Info, Warn])
    case Returned(Some(book)) => Reply(Ok(BookToDto(book)), [Info, Info])
  }

  /** POST api/Books. `newId` is the id the store gives the book if it
      commits. */
  function CreateStep(books: map<int, Book>, dto: Option<BookCreateDto>, modelState: ModelState,
                      answer: WriteAnswer, newId: int): (s: Step<Book>)
    ensures s.reply.result.StatusCode() in {201, 400, 500}
    ensures s.reply.result.BadRequest? <==> dto.None? || !modelState.IsValid()
    ensures s.reply.result.BadRequest? ==>
              s.reply.result.modelState == Some(modelState) && s.calls == [] && s.books == books
    ensures !s.reply.result.BadRequest? ==> s.calls == [CreateCall(BookFromCreate(dto.value))]
    ensures s.reply.result.Created? <==> dto.Some? && modelState.IsValid() && answer.Commit?
    ensures s.reply.result.Created? ==>
              s.reply.result.value == Book(newId, dto.value.info) &&
              s.reply.result.location == Location(newId) &&
              IdFromLocation(s.reply.result.location) == Some(newId) &&
              s.books == Insert(books, BookFromCreate(dto.value), newId)
    ensures IsServerError(s.reply.result) <==> dto.Some? && modelState.IsValid() && !answer.Commit?
    ensures !s.reply.result.Created? ==> s.books == books
    ensures dto.Some? && modelState.IsValid() && answer.Raise? ==>
              Error(Exception(answer.message)) in s.reply.log
    ensures dto.Some? && modelState.IsValid() && answer.Reject? ==> Error(SaveFailed) in s.reply.log
    ensures NoErrors(s.reply.log) <==> !IsServerError(s.reply.result)
  {
    if dto.None? then Step(Reply(BadRequest(Some(modelState)), [Warn]), [], books)
    else if !modelState.IsValid() then Step(Reply(BadRequest(Some(modelState)), [Warn]), [], books)
    else
      var book := BookFromCreate(dto.value);
      var calls := [CreateCall(book)];
      match Reported(answer)
      case Threw(m) => Step(After([Info], InternalError(Exception(m))), calls, books)
      case Returned(false) => Step(After([Info], InternalError(SaveFailed)), calls, books)
      case Returned(true) =>
        LocationNamesId(newId);
        var saved := book.(id := newId);
        Step(Reply(Created(Location(saved.id), saved), [Info, Info]), calls, Insert(books, book, newId))
  }

  /** The checks Update makes before it touches the store. */
  predicate UpdateAccepted(id: int, dto: Option<BookUpdateDto>, modelState: ModelState): (ok: bool)
    ensures ok ==> id >= 1 && modelState.IsValid()
    ensures ok ==> dto.Some? && BookFromUpdate(dto.value).id == id
  {
    id >= 1 && dto.Some? && dto.value.id == id && modelState.IsValid()
  }

  /** PUT api/Books/{id}. */
  function UpdateStep(books: map<int, Book>, id: int, dto: Option<BookUpdateDto>, modelState: ModelState,
                      existsFault: Option<string>, answer: WriteAnswer): (s: Step<()>)
    ensures s.reply.result.StatusCode() in {204, 400, 404, 500}
    ensures s.reply.result.BadRequest? <==> !UpdateAccepted(id, dto, modelState)
    ensures s.reply.result.BadRequest? ==>
              s.reply.result.modelState == Some(modelState) && s.calls == [] && s.books == books
    ensures UpdateAccepted(id, dto, modelState) ==>
              s.calls == [IsExistsCall(id)] +
                (if existsFault.None? && id in books then [UpdateCall(BookFromUpdate(dto.value))] else [])
    ensures s.reply.result.NotFound? <==> UpdateAccepted(id, dto, modelState) && existsFault.None? && id !in books
    ensures (exists c :: c in s.calls && c.Mutates()) <==>
              UpdateAccepted(id, dto, modelState) && existsFault.None? && id in books
    ensures forall c :: c in s.calls && c.Mutates() ==> dto.Some? && c == UpdateCall(BookFromUpdate(dto.value))
    ensures s.reply.result.NoContent? <==>
              UpdateAccepted(id, dto, modelState) && existsFault.None? && id in books && answer.Commit?
    ensures s.reply.result.NoContent? ==> s.books == Replace(books, BookFromUpdate(dto.value))
    ensures !s.reply.result.NoContent? ==> s.books == books
    ensures IsServerError(s.reply.result) <==>
              UpdateAccepted(id, dto, modelState) && (existsFault.Some? || (id in books && !answer.Commit?))
    ensures UpdateAccepted(id, dto, modelState) && existsFault.Some? ==>
              Error(Exception(existsFault.value)) in s.reply.log
    ensures UpdateAccepted(id, dto, modelState) && existsFault.None? && id in books && answer.Raise? ==>
              Error(Exception(answer.message)) in s.reply.log
    ensures UpdateAccepted(id, dto, modelState) && existsFault.None? && id in books && answer.Reject? ==>
              Error(SaveFailed) in s.reply.log
    ensures NoErrors(s.reply.log) <==> !IsServerError(s.reply.result)
  {
    if id < 1 || dto.None? || dto.value.id != id then Step(Reply(BadRequest(Some(modelState)), [Warn]), [], books)
    else if !modelState.IsValid() then Step(Reply(BadRequest(Some(modelState)), [Warn]), [], books)
    else
      var probe := [IsExistsCall(id)];
      match Exists(books, id, existsFault)
      case Threw(m) => Step(InternalError(Exception(m)), probe, books)
      case Returned(false) => Step(Reply(NotFound, []), probe, books)
      case Returned(true) =>
        var book := BookFromUpdate(dto.value);
        var calls := probe + [UpdateCall(book)];
        assert calls[1].Mutates();
        match Reported(answer)
        case Threw(m) => Step(After([Info], InternalError(Exception(m))), calls, books)
        case Returned(false) => Step(After([Info], InternalError(SaveFailed)), calls, books)
        case Returned(true) => Step(Reply(NoContent, [Info, Info]), calls, Replace(books, book))
  }

  /** DELETE api/Books/{id}. */
  function DeleteStep(books: map<int, Book>, id: int, findFault: Option<string>, answer: WriteAnswer): (s: Step<()>)
    ensures s.reply.result.StatusCode() in {204, 400, 404, 500}
    ensures s.reply.result.BadRequest? <==> id < 1
    ensures id < 1 ==> s.reply.result.modelState.None? && s.calls == [] && s.books == books
    ensures id >= 1 ==>
              s.calls == [FindByIdCall(id)] + (if findFault.None? && id in books then [DeleteCall(books[id])] else [])
    ensures s.reply.result.NotFound? <==> id >= 1 && findFault.None? && id !in books
    ensures (exists c :: c in s.calls && c.Mutates()) <==> id >= 1 && findFault.None? && id in books
    ensures forall c :: c in s.calls && c.Mutates() ==> id in books && c == DeleteCall(books[id])
    ensures s.reply.result.NoContent? <==> id >= 1 && findFault.None? && id in books && answer.Commit?
    ensures s.reply.result.NoContent? ==> id in books && s.books == Remove(books, books[id])
    ensures !s.reply.result.NoContent? ==> s.books == books
    ensures IsServerError(s.reply.result) <==> id >= 1 && (findFault.Some? || (id in books && !answer.Commit?))
    ensures id >= 1 && findFault.Some? ==> Error(Exception(findFault.value)) in s.reply.log
    ensures id >= 1 && findFault.None? && id in books && answer.Raise? ==>
              Error(Exception(answer.message)) in s.reply.log
    ensures id >= 1 && findFault.None? && id in books && answer.Reject? ==> Error(SaveFailed) in s.reply.log
    ensures NoErrors(s.reply.log) <==> !IsServerError(s.reply.result)
  {
    if id < 1 then Step(Reply(BadRequest(None), [Warn]), [], books)
    else
      var probe := [FindByIdCall(id)];
      match Lookup(books, id, findFault)
      case Threw(m) => Step(InternalError(Exception(m)), probe, books)
      case Returned(None) => Step(Reply(NotFound, []), probe, books)
      case Returned(Some(book)) =>
        var calls := probe + [DeleteCall(book)];
        assert calls[1].Mutates();
        match Reported(answer)
        case Threw(m) => Step(After([Info], InternalError(Exception(m))), calls, books)
        case Returned(false) => Step(After([Info], InternalError(SaveFailed)), calls, books)
        case Returned(true) => Step(Reply(NoContent, [Info, Info]), calls, Remove(books, book))
  }

  /** The controller: its repository and the lines it has logged. */
  class BooksController {
    const repo: BookRepository
    var log: seq<LogEntry>

    constructor (repo: BookRepository)
      ensures this.repo == repo && log == []
    {
      this.repo := repo;
      log := [];
    }

    /** `internalError`: log the detail, answer 500 with the fixed text. */
    method LogInternalError<T>(detail: Detail) returns (r: ActionResult<T>)
      modifies this
      ensures r == InternalError<T>(detail).result
      ensures log == old(log) + InternalError<T>(detail).log
    {
      var e := InternalError<T>(detail);
      log := log + e.log;
      r := e.result;
    }

    method Create(dto: Option<BookCreateDto>, modelState: ModelState, answer: WriteAnswer)
      returns (r: ActionResult<Book>, ghost newId: int)
      requires repo.Valid()
      modifies this, repo
      ensures repo.Valid()
      ensures var s := CreateStep(old(repo.books), dto, modelState, answer, newId);
              r == s.reply.result && log == old(log) + s.reply.log &&
              repo.books == s.books && repo.calls == old(repo.calls) + s.calls
      ensures r.Created? ==> newId >= 1 && newId !in old(repo.books)
    {
      newId := 0;
      if dto.None? {
        log := log + [Warn];
        return BadRequest(Some(modelState)), newId;
      }
      if !modelState.IsValid() {
        log := log + [Warn];
        return BadRequest(Some(modelState)), newId;
      }
      log := log + [Info];
      var book := BookFromCreate(dto.value);
      var isSuccess, saved := repo.Create(book, answer);
      if isSuccess.Threw? {
        r := LogInternalError(Exception(isSuccess.message));
        return;
      }
      if !isSuccess.value {
        r := LogInternalError(SaveFailed);
        return;
      }
      log := log + [Info];
      newId := saved.id;
      r := Created(Location(saved.id), saved);
    }

    method Update(id: int, dto: Option<BookUpdateDto>, modelState: ModelState,
                  existsFault: Option<string>, answer: WriteAnswer) returns (r: ActionResult<()>)
      requires repo.Valid()
      modifies this, repo
      ensures repo.Valid()
      ensures var s := UpdateStep(old(repo.books), id, dto, modelState, existsFault, answer);
              r == s.reply.result && log == old(log) + s.reply.log &&
              repo.books == s.books && repo.calls == old(repo.calls) + s.calls
    {
      if id < 1 || dto.None? || dto.value.id != id {
        log := log + [Warn];
        return BadRequest(Some(modelState));
      }
      if !modelState.IsValid() {
        log := log + [Warn];
        return BadRequest(Some(modelState));
      }
      var isExists := repo.IsExists(id, existsFault);
      if isExists.Threw? {
        r := LogInternalError(Exception(isExists.message));
        return;
      }
      if !isExists.value {
        return NotFound;
      }
      log := log + [Info];
      var book := BookFromUpdate(dto.value);
      var isSuccess := repo.Update(book, answer);
      if isSuccess.Threw? {
        r := LogInternalError(Exception(isSuccess.message));
        return;
      }
      if !isSuccess.value {
        r := LogInternalError(SaveFailed);
        return;
      }
      log := log + [Info];
      r := NoContent;
    }

    method Delete(id: int, findFault: Option<string>, answer: WriteAnswer) returns (r: ActionResult<()>)
      requires repo.Valid()
      modifies this, repo
      ensures repo.Valid()
      ensures var s := DeleteStep(old(repo.books), id, findFault, answer);
              r == s.reply.result && log == old(log) + s.reply.log &&
              repo.books == s.books && repo.calls == old(repo.calls) + s.calls
    {
      if id < 1 {
        log := log + [Warn];
        return BadRequest(None);
      }
      var found := repo.FindById(id, findFault);
      if found.Threw? {
        r := LogInternalError(Exception(found.message));
        return;
      }
      if found.value.None? {
        return NotFound;
      }
      var book := found.value.value;
      log := log + [Info];
      var isSuccess := repo.Delete(book, answer);
      if isSuccess.Threw? {
        r := LogInternalError(Exception(isSuccess.message));
        return;
      }
      if !isSuccess.value {
        r := LogInternalError(SaveFailed);
        return;
      }
      log := log + [Info];
      r := NoContent;
    }
  }

  /** A book created from a valid request is then found under the id the
      Location names, with exactly the fields the request carried. */
  lemma CreateThenGet(books: map<int, Book>, dto: BookCreateDto, modelState: ModelState, newId: int)
    requires modelState.IsValid()
    ensures var s := CreateStep(books, Some(dto), modelState, Commit, newId);
            s.reply.result.Created? &&
            IdFromLocation(s.reply.result.location) == Some(newId) &&
            GetBook(Lookup(s.books, newId, None)).result == Ok(BookDto(newId, dto.info))
  {
  }

  /** After a committed update, GET returns the fields the update carried. */
  lemma UpdateThenGet(books: map<int, Book>, id: int, dto: BookUpdateDto, modelState: ModelState)
    requires UpdateAccepted(id, Some(dto), modelState) && id in books
    ensures var s := UpdateStep(books, id, Some(dto), modelState, None, Commit);
            s.reply.result.NoContent? &&
            GetBook(Lookup(s.books, id, None)).result == Ok(BookDto(id, dto.info))
  {
  }

  /** After a committed delete, GET of the same id is NotFound. */
  lemma DeleteThenGet(books: map<int, Book>, id: int)
    requires WellKeyed(books) && id >= 1 && id in books
    ensures var s := DeleteStep(books, id, None, Commit);
            s.reply.result.NoContent? && GetBook(Lookup(s.books, id, None)).result.NotFound?
  {
  }

  /** An id the store does not hold is NotFound for GET, for DELETE, and for a
      PUT that passes validation; never a 500 when the store does not throw,
      and nothing is written. */
  lemma AbsentBookNotFound(books: map<int, Book>, id: int, dto: Option<BookUpdateDto>,
                           modelState: ModelState, answer: WriteAnswer)
    requires id !in books
    ensures GetBook(Lookup(books, id, None)).result.NotFound?
    ensures id >= 1 ==> DeleteStep(books, id, None, answer).reply.result.NotFound?
    ensures id >= 1 ==> DeleteStep(books, id, None, answer).books == books
    ensures UpdateAccepted(id, dto, modelState) ==>
              UpdateStep(books, id, dto, modelState, None, answer).reply.result.NotFound? &&
              UpdateStep(books, id, dto, modelState, None, answer).books == books
  {
  }

  /** Listing an empty store is 200 with no books, not 404. */
  lemma EmptyStoreListsNoBooks(listed: seq<Book>)
    requires Lists(map[], listed)
    ensures GetBooks(Returned(listed)).result == Ok([])
  {
  }
}
