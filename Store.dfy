/** The book and author repositories the controllers talk to. Their code is not
    part of this model: a repository is a map from id to entity, every call may
    fail in the ways the controllers handle (it throws, or a write reports
    false), and which of these happens is chosen by the caller of the model.
    When a call does not fail it follows the repository contract: reads answer
    from the map, Create stores the entity under a fresh positive id it assigns,
    Update replaces the entity with the same id, Delete removes it. A write that
    fails leaves the map as it was. */
module Store {
  import opened Wrappers
  import opened Entities

  /** How the store answers a write: it commits and reports true, reports
      false, or throws. */
  datatype WriteAnswer = Commit | Reject | Raise(message: string)

  /** A call into the book repository, as recorded in its trace. */
  datatype RepoCall =
    | FindByIdCall(id: int)
    | IsExistsCall(id: int)
    | CreateCall(book: Book)
    | UpdateCall(book: Book)
    | DeleteCall(book: Book)
  {
    predicate Mutates()
    {
      CreateCall? || UpdateCall? || DeleteCall?
    }
  }

  /** FindById: the entity stored under `id`, none (null) when there is none,
      or the exception the store raised. */
  function Lookup<E>(rows: map<int, E>, id: int, fault: Option<string>): (r: Try<Option<E>>)
    ensures r.Threw? <==> fault.Some?
    ensures r.Threw? ==> r.message == fault.value
    ensures r.Returned? && r.value.None? <==> fault.None? && id !in rows
    ensures r.Returned? && r.value.Some? ==> id in rows && r.value.value == rows[id]
  {
    match fault
    case Some(m) => Threw(m)
    case None => Returned(if id in rows then Some(rows[id]) else None)
  }

  /** isExists: whether an entity is stored under `id`, or the exception the
      store raised. */
  function Exists<E>(rows: map<int, E>, id: int, fault: Option<string>): (r: Try<bool>)
    ensures r.Threw? <==> fault.Some?
    ensures r.Threw? ==> r.message == fault.value
    ensures r.Returned? ==> (r.value <==> id in rows)
  {
    match fault
    case Some(m) => Threw(m)
    case None => Returned(id in rows)
  }

  /** What a write call hands back to the controller. */
  function Reported(answer: WriteAnswer): (r: Try<bool>)
    ensures r.Returned? && r.value <==> answer.Commit?
    ensures r.Returned? && !r.value <==> answer.Reject?
    ensures r.Threw? <==> answer.Raise?
    ensures r.Threw? ==> r.message == answer.message
  {
    match answer
    case Commit => Returned(true)
    case Reject => Returned(false)
    case Raise(m) => Threw(m)
  }

  /** Every stored book carries the id it is stored under. */
  ghost predicate WellKeyed(books: map<int, Book>)
  {
    forall k :: k in books ==> books[k].id == k
  }

  /** `listed` is what FindAll may hand back for `rows`: every stored entity
      once, in the store's own order. */
  ghost predicate Lists<E>(rows: map<int, E>, listed: seq<E>)
  {
    |listed| == |rows| &&
    (forall i :: 0 <= i < |listed| ==> listed[i] in rows.Values) &&
    (forall k :: k in rows ==> rows[k] in listed)
  }

  /** A successful Create: the book, with the id the store assigned filled in,
      is stored under that id; nothing else changes. */
  function Insert(books: map<int, Book>, book: Book, id: int): (r: map<int, Book>)
    ensures r.Keys == books.Keys + {id}
    ensures r[id] == book.(id := id)
    ensures forall k :: k in books && k != id ==> r[k] == books[k]
    ensures WellKeyed(books) ==> WellKeyed(r)
  {
    books[id := book.(id := id)]
  }

  /** A successful Update: the book replaces whatever was stored under its id. */
  function Replace(books: map<int, Book>, book: Book): (r: map<int, Book>)
    ensures r.Keys == books.Keys + {book.id}
    ensures r[book.id] == book
    ensures forall k :: k in books && k != book.id ==> r[k] == books[k]
    ensures WellKeyed(books) ==> WellKeyed(r)
  {
    books[book.id := book]
  }

  /** A successful Delete: the entry under the book's id is gone. */
  function Remove(books: map<int, Book>, book: Book): (r: map<int, Book>)
    ensures r.Keys == books.Keys - {book.id}
    ensures forall k :: k in r ==> r[k] == books[k]
    ensures WellKeyed(books) ==> WellKeyed(r)
  {
    books - {book.id}
  }

  /** A positive bound above every key in use, so the store always has an
      unused id to assign. */
  ghost function Bound(keys: set<int>): (b: int)
    ensures b >= 1
    ensures forall k :: k in keys ==> k < b
    decreases |keys|
  {
    if keys == {} then 1
    else
      HasElement(keys);
      var x :| x in keys;
      var rest := Bound(keys - {x});
      assert forall k :: k in keys ==> k == x || k in keys - {x};
      if x < rest then rest else x + 1
  }

  lemma HasElement(s: set<int>)
    requires s != {}
    ensures exists x :: x in s
  {
    if forall x :: x !in s {
      assert false;
    }
  }

  /** The book repository, with the trace of the calls made to it. */
  class BookRepository {
    var books: map<int, Book>
    ghost var calls: seq<RepoCall>

    ghost predicate Valid()
      reads this
    {
      WellKeyed(books)
    }

    constructor (books: map<int, Book>)
      requires WellKeyed(books)
      ensures Valid() && this.books == books && calls == []
    {
      this.books := books;
      calls := [];
    }

    method FindById(id: int, fault: Option<string>) returns (r: Try<Option<Book>>)
      modifies this`calls
      ensures r == Lookup(books, id, fault)
      ensures calls == old(calls) + [FindByIdCall(id)]
    {
      calls := calls + [FindByIdCall(id)];
      r := Lookup(books, id, fault);
    }

    method IsExists(id: int, fault: Option<string>) returns (r: Try<bool>)
      modifies this`calls
      ensures r == Exists(books, id, fault)
      ensures calls == old(calls) + [IsExistsCall(id)]
    {
      calls := calls + [IsExistsCall(id)];
      r := Exists(books, id, fault);
    }

    /** Create fills in the entity's id; the caller reads it back from `saved`. */
    method Create(book: Book, answer: WriteAnswer) returns (r: Try<bool>, saved: Book)
      requires Valid()
      modifies this
      ensures Valid()
      ensures calls == old(calls) + [CreateCall(book)]
      ensures r == Reported(answer)
      ensures answer.Commit? ==>
                saved.id >= 1 && saved.id !in old(books) && saved == book.(id := saved.id) &&
                books == Insert(old(books), book, saved.id)
      ensures !answer.Commit? ==> saved == book && books == old(books)
    {
      calls := calls + [CreateCall(book)];
      r := Reported(answer);
      saved := book;
      if answer.Commit? {
        ghost var b := Bound(books.Keys);
        assert b >= 1 && b !in books;
        var id :| id >= 1 && id !in books;
        saved := book.(id := id);
        books := Insert(books, book, id);
      }
    }

    method Update(book: Book, answer: WriteAnswer) returns (r: Try<bool>)
      requires Valid()
      modifies this
      ensures Valid()
      ensures calls == old(calls) + [UpdateCall(book)]
      ensures r == Reported(answer)
      ensures books == if answer.Commit? then Replace(old(books), book) else old(books)
    {
      calls := calls + [UpdateCall(book)];
      r := Reported(answer);
      if answer.Commit? {
        books := Replace(books, book);
      }
    }

    method Delete(book: Book, answer: WriteAnswer) returns (r: Try<bool>)
      requires Valid()
      modifies this
      ensures Valid()
      ensures calls == old(calls) + [DeleteCall(book)]
      ensures r == Reported(answer)
      ensures books == if answer.Commit? then Remove(old(books), book) else old(books)
    {
      calls := calls + [DeleteCall(book)];
      r := Reported(answer);
      if answer.Commit? {
        books := Remove(books, book);
      }
    }
  }
}
