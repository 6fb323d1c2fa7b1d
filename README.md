# BookStore API controllers in Dafny

This project models the request handling of the BookStore API's two
controllers. `BooksController` serves list, get, create, update and delete
for books. `AuthorsController` serves list and get for authors.

Each endpoint runs a short, fixed sequence of steps:
1. It validates its input.
2. It asks the repository whether the record exists.
3. It makes at most one repository write.
4. It settles on exactly one outcome: 200 with a body, 201 with a Location, 204, 400, 404, or 500 with the fixed body "Something went wrong".

Any exception inside an endpoint is caught. Its message goes to the error log,
and the client gets only that fixed 500 reply.

Layout:
- `Wrappers.dfy`: `Option`, and `Try` (a value returned, or the message of an exception thrown).
- `Entities.dfy`: the entities (`Book`, `Author`) and their transport shapes (create, update and read DTOs). It also holds the mapping between them, a field-by-field copy.
- `Formatting.dfy`: decimal formatting of an `int`, as string interpolation writes it, and its parser.
- `Http.dfy`: the action results, the model state, log lines, and the shared 500 reply (`internalError`).
- `Store.dfy`: the repositories. The store is a map from id to entity. Each call may fail, and the caller of the model chooses how: a throw, or `false` from a write. A call that does not fail follows the repository contract:
  - reads answer from the map;
  - Create stores the entity under an unused positive id, and that id is filled into the entity;
  - Update replaces the entity with the same id;
  - Delete removes it;
  - a failed write changes nothing.
  `BookRepository` is a class holding the map and a ghost trace of the calls made to it.
- `BooksController.dfy` (module `Books`):
  - `GetBooks` and `GetBook` are functions over what the repository read produced.
  - Create, Update and Delete are methods of the class `BooksController`. They call the repository object and append to the controller's log.
  - Each method is proved to behave like a step function (`CreateStep`, `UpdateStep`, `DeleteStep`). A step gives the reply, the log lines, the repository calls in order, and the store afterwards.
  - The lemmas relate operations to one another: create then get, update then get, delete then get, and absent ids.
- `AuthorsController.dfy` (module `Authors`): `GetAuthors` and `GetAuthor` as functions. Because they are functions and not methods, neither can change the store.

## Model

| member | source | states |
|---|---|---|
| `Http.InternalError` | BookStore-API/Controllers/BooksController.cs:235-239 | the reply is status 500 with body "Something went wrong" whatever the detail; the detail appears only in the one error log line (AuthorsController.cs:81-85 is the same code) |
| `Books.BooksController.LogInternalError` | BookStore-API/Controllers/BooksController.cs:235-239 | appends the error line carrying the detail to the controller's log and returns the fixed 500 result |
| `Entities.MapBooks` | BookStore-API/Controllers/BooksController.cs:53 | mapping a list of books gives a list of the same length whose i-th element is the read shape of the i-th book |
| `Entities.MapAuthors` | BookStore-API/Controllers/AuthorsController.cs:45 | mapping a list of authors keeps the length and maps element by element, in order |
| `Entities.BookFromCreate` | BookStore-API/Controllers/BooksController.cs:118 | the create body becomes an entity with the same fields and id 0: the id is not yet assigned |
| `Entities.BookFromUpdate` | BookStore-API/Controllers/BooksController.cs:170 | the update body becomes an entity with the same id and fields |
| `Entities.BookToDto` | BookStore-API/Controllers/BooksController.cs:82 | an entity becomes the read shape with the same id and fields |
| `Entities.AuthorToDto` | BookStore-API/Controllers/AuthorsController.cs:45 | an author becomes the read shape with the same id and names |
| `Books.BooksController.constructor` | BookStore-API/Controllers/BooksController.cs:29-36 | the controller keeps the repository it is given and starts with an empty log |
| `Books.GetBooks` | BookStore-API/Controllers/BooksController.cs:47-61 | 200 exactly when FindAll returns, with every listed book mapped in order; a throw gives the fixed 500 with the message logged as an error; no error is logged on success; no other status |
| `Books.GetBook` | BookStore-API/Controllers/BooksController.cs:71-90 | 404 exactly when FindById returns null; 200 with the found book's read shape exactly when it returns one; a throw gives the fixed 500 with the message logged |
| `Books.CreateStep` | BookStore-API/Controllers/BooksController.cs:103-137 | 400 echoing the model state exactly when the body is absent or invalid, and then no repository call and the store unchanged; otherwise exactly one repository Create call, with the mapped entity; 201 exactly when the store commits, with the saved entity (the assigned id and the request's fields) as body and the Location `Location(id)`, which parses back to that id; 500 with the fixed body exactly when Create reports false or throws, with the exception message or the failed save logged as an error, and then the store unchanged; an error line is logged exactly when the reply is 500 |
| `Books.Location` | BookStore-API/Controllers/BooksController.cs:130 | the Location starts with `https://localhost:44307/api/Books/` and the rest reads back as the book's id |
| `Formatting.DecimalString` | BookStore-API/Controllers/BooksController.cs:130 | an int as interpolated: a minus sign exactly for negatives, then at least one digit and no leading zero except for 0 itself |
| `Books.BooksController.Create` | BookStore-API/Controllers/BooksController.cs:103-137 | on the live repository it returns the result of `CreateStep` and appends its log lines; the store and call trace move as that step says; the id the store assigned is positive and was not in use |
| `Books.UpdateAccepted` | BookStore-API/Controllers/BooksController.cs:154-163 | a request that passes both checks has id >= 1, a valid model state and a body, and the entity mapped from that body carries the path id |
| `Books.UpdateStep` | BookStore-API/Controllers/BooksController.cs:150-187 | 400 exactly when id < 1, the body is absent, its Id differs from the path id, or the model state is invalid; in that case nothing in the store is consulted or changed; otherwise the calls are exactly one isExists, then one Update of the mapped entity when the id exists and none otherwise; 404 exactly when the id is absent, with no write; a write happens exactly when the id exists, and it is Update with the mapped entity; 204 exactly when that write commits, and the store then holds the new entity; the fixed 500 exactly when isExists throws or the write reports false or throws, with the exception message or the failed save logged as an error; store unchanged unless 204; an error line is logged exactly when the reply is 500 |
| `Books.BooksController.Update` | BookStore-API/Controllers/BooksController.cs:150-187 | on the live repository it returns the result of `UpdateStep`, appends its log lines and moves store and call trace as that step says; the repository stays well keyed |
| `Books.DeleteStep` | BookStore-API/Controllers/BooksController.cs:200-232 | 400 with no body exactly when id < 1, and then no repository call; otherwise the calls are exactly one FindById, then one Delete of the fetched entity when it exists and none otherwise; 404 exactly when nothing is stored under the id, with no write; the only write is Delete of the fetched entity, made exactly when it exists; 204 exactly when that write commits, with the entry gone; the fixed 500 exactly when FindById throws or Delete reports false or throws, with the exception message or the failed save logged as an error; store unchanged unless 204; an error line is logged exactly when the reply is 500 |
| `Books.BooksController.Delete` | BookStore-API/Controllers/BooksController.cs:200-232 | on the live repository it returns the result of `DeleteStep`, appends its log lines and moves store and call trace as that step says |
| `Books.LocationNamesId` | BookStore-API/Controllers/BooksController.cs:130 | the Location of a created book parses back to exactly the id it was built from |
| `Formatting.DecimalRoundTrip` | BookStore-API/Controllers/BooksController.cs:130 | an int formatted into the Location, negative or not, reads back as the same int |
| `Books.CreateThenGet` | BookStore-API/Controllers/BooksController.cs:118-130 | after a committed create, the Location names the new id, and a GET of that id returns 200 with the id and exactly the request's fields |
| `Books.UpdateThenGet` | BookStore-API/Controllers/BooksController.cs:170-181 | after a committed update, a GET of the id returns the fields the update carried |
| `Books.DeleteThenGet` | BookStore-API/Controllers/BooksController.cs:209-226 | after a committed delete, a GET of the id is 404 |
| `Books.AbsentBookNotFound` | BookStore-API/Controllers/BooksController.cs:164-168 | for an id the store does not hold, and a store that does not throw, three requests give 404 and never 500, and nothing is written: GET, DELETE with id >= 1, and a PUT that passes validation |
| `Books.EmptyStoreListsNoBooks` | BookStore-API/Controllers/BooksController.cs:52-55 | listing an empty store gives 200 with an empty list, not 404 |
| `Store.Lookup` | BookStore-API/Controllers/BooksController.cs:76 | FindById throws exactly when the store fails; it returns null exactly when the id is not stored, and otherwise the entity stored under the id |
| `Store.Exists` | BookStore-API/Controllers/BooksController.cs:164 | isExists throws exactly when the store fails, otherwise says whether the id is stored |
| `Store.Reported` | BookStore-API/Controllers/BooksController.cs:120 | a write returns true exactly when the store commits, false when it declines, and throws its message otherwise |
| `Store.Insert` | BookStore-API/Controllers/BooksController.cs:120 | a committed Create adds exactly the new id, whose entity is the given one with that id; other entries are unchanged; every entry stays keyed by its own id |
| `Store.Replace` | BookStore-API/Controllers/BooksController.cs:172 | a committed Update stores the entity under its id and leaves the other entries alone |
| `Store.Remove` | BookStore-API/Controllers/BooksController.cs:216 | a committed Delete drops exactly the entity's id and leaves the rest alone |
| `Store.BookRepository.FindById` | BookStore-API/Controllers/BooksController.cs:209 | answers as `Lookup` on the current store and records the call; the store is untouched |
| `Store.BookRepository.IsExists` | BookStore-API/Controllers/BooksController.cs:164 | answers as `Exists` on the current store and records the call; the store is untouched |
| `Store.BookRepository.Create` | BookStore-API/Controllers/BooksController.cs:120 | records the call; on commit it picks a positive id not in use, fills it into the entity and stores it; otherwise it changes nothing and the entity keeps id 0 |
| `Store.BookRepository.Update` | BookStore-API/Controllers/BooksController.cs:172 | records the call; replaces the entity on commit, otherwise changes nothing |
| `Store.BookRepository.Delete` | BookStore-API/Controllers/BooksController.cs:216 | records the call; removes the entity on commit, otherwise changes nothing |
| `Authors.GetAuthors` | BookStore-API/Controllers/AuthorsController.cs:39-53 | 200 exactly when FindAll returns, with every author mapped in order; a throw gives the fixed 500 with the message logged; as a function it cannot change the store |
| `Authors.GetAuthor` | BookStore-API/Controllers/AuthorsController.cs:60-79 | as written: 404 exactly when FindById returns null; for a found author, 200 with a list holding its read shape when the list mapping does not throw; the fixed 500 exactly when FindById or that mapping throws, with the message logged as an error; no error logged otherwise |
| `Authors.GetAuthorSingle` | BookStore-API/Controllers/AuthorsController.cs:60-79 | the same decisions with the single author's read shape as body |
| `Authors.AsWrittenWrapsBodyInList` | BookStore-API/Controllers/AuthorsController.cs:71-73 | the code as written differs from the single-author reply only in wrapping the body in a one-element list; status and log are the same |
| `Authors.AsWrittenFailsOnFoundAuthor` | BookStore-API/Controllers/AuthorsController.cs:71-78 | when mapping one author into a list throws, every stored author is answered with the fixed 500, where the single-author reply is 200 with it |
| `Authors.AnyIdIsLookedUp` | BookStore-API/Controllers/AuthorsController.cs:59-70 | the reply depends only on FindById's outcome, with no range check in front: for any int id, zero and negative ones included, a store that does not throw gives 200 exactly when it holds the id and 404 otherwise |
| `Authors.AuthorByIdIsListed` | BookStore-API/Controllers/AuthorsController.cs:44-73 | for a stored author, GET by id returns a body that also appears in the list from GET all |
| `Authors.EmptyStoreListsNoAuthors` | BookStore-API/Controllers/AuthorsController.cs:44-47 | listing an empty store gives 200 with an empty list |

## Left out

- Two behaviours of the code are kept as they are:
  - Update and Delete return 404 without writing a log line (BooksController.cs:165-168, 210-213), while every other outcome is logged.
  - GET api/Authors/{id} maps the author into a list, where GET api/Books/{id} returns one read shape (see Findings).
- HomeController: stub endpoints that return constants and only log. There is no decision in them.
- Repository internals: the store's code is not part of this model.
  - Which failure happens (an exception, or `false` from a write) is a parameter of each endpoint.
  - What a successful call does is the repository contract stated in `Store.dfy`. The real store is assumed to honour it.
  - The repository's FindAll is the listing parameter of `GetBooks` and `GetAuthors`. `Store.Lists` says when a listing matches a store.
- `Store.BookRepository.Create`: the repository fills `Book.Id` into the controller's entity in place. The model returns the saved entity by value, and the controller reads the id from that value. Nothing else holds a reference to that entity, so only the in-place mechanism is lost.
- Mapper: the mapping configuration is not part of this model. Mapping is a field-by-field copy between entities and DTOs. Mapper exceptions are modelled only for the author-to-list mapping of GET api/Authors/{id}; the other mappings are taken never to throw. The author's book collection is not mapped.
- `Authors.GetAuthor`: when mapping one author into a list does not throw, the result is taken to be a one-element list holding the author's read shape. No mapping rule that would produce this is part of this model; the throwing case is the `mapperFault` parameter.
- Logging: only the severity of each log line is modelled, plus the detail of error lines. The text of lines, `GetCallerNames`, and the logger's own failures are not.
- Model validation: ASP.NET's validation is left out. `ModelState` is an input, valid when it holds no error.
- Integer width: ids are unbounded `int` where the source has a 32-bit `int`. The controllers only compare ids and never compute with them, so no wrap-around can arise.
- async/Task, routing attributes, and `ProducesResponseType` declarations: framework plumbing. (The declarations on Update and Delete do not list the 404 those endpoints return.)
- The check-then-act gap: the gap between isExists or FindById and the later write only matters under concurrent requests, which are out of scope.

## Findings

| source | as written | input that shows it | evidently intended | confidence | as-written member | corrected member |
|---|---|---|---|---|---|---|
| BookStore-API/Controllers/AuthorsController.cs:71 | the single author found by id is mapped into `IList<AuthorDTO>`, so GET api/Authors/{id} answers with a list. Under a mapping configuration with no rule from an author to a list, the mapper throws instead, and the catch block turns a found author into the 500 reply | any id under which an author is stored | one author's read shape, as GET api/Books/{id} returns for a book | medium, not executed | `Authors.AsWrittenFailsOnFoundAuthor` (on `Authors.GetAuthor`) | `Authors.AuthorByIdIsListed` (on `Authors.GetAuthorSingle`) |
