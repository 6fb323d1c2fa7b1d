/** The persistence entities, the transport shapes (DTOs) and the mapping
    between them. The mapping is a field-by-field copy: no field is computed. */
module Entities {

  /** The descriptive fields every book shape carries. */
  datatype BookInfo = BookInfo(
    title: string, year: int, isbn: string, summary: string, image: string, authorId: int)

  /** A stored book; `id` is 0 until the store assigns one. */
  datatype Book = Book(id: int, info: BookInfo)

  /** The body of a create request: no id. */
  datatype BookCreateDto = BookCreateDto(info: BookInfo)

  /** The body of an update request: the id must match the path. */
  datatype BookUpdateDto = BookUpdateDto(id: int, info: BookInfo)

  /** The read shape sent back to clients. */
  datatype BookDto = BookDto(id: int, info: BookInfo)

  datatype Author = Author(id: int, firstname: string, lastname: string)

  datatype AuthorDto = AuthorDto(id: int, firstname: string, lastname: string)

  /** A create body becomes an entity with the same fields and no id yet. */
  function BookFromCreate(d: BookCreateDto): (b: Book)
    ensures b.id == 0 && b.info == d.info
  {
    Book(0, d.info)
  }

  /** An update body becomes an entity with the same id and fields. */
  function BookFromUpdate(d: BookUpdateDto): (b: Book)
    ensures b.id == d.id && b.info == d.info
  {
    Book(d.id, d.info)
  }

  /** An entity becomes the read shape with the same id and fields. */
  function BookToDto(b: Book): (d: BookDto)
    ensures d.id == b.id && d.info == b.info
  {
    BookDto(b.id, b.info)
  }

  /** An author becomes the read shape with the same id and names. */
  function AuthorToDto(a: Author): (d: AuthorDto)
    ensures d.id == a.id && d.firstname == a.firstname && d.lastname == a.lastname
  {
    AuthorDto(a.id, a.firstname, a.lastname)
  }

  /** Mapping a collection of books maps each one, in order. */
  function MapBooks(bs: seq<Book>): (ds: seq<BookDto>)
    ensures |ds| == |bs|
    ensures forall i :: 0 <= i < |bs| ==> ds[i] == BookToDto(bs[i])
  {
    if bs == [] then [] else [BookToDto(bs[0])] + MapBooks(bs[1..])
  }

  /** Mapping a collection of authors maps each one, in order. */
  function MapAuthors(as_: seq<Author>): (ds: seq<AuthorDto>)
    ensures |ds| == |as_|
    ensures forall i :: 0 <= i < |as_| ==> ds[i] == AuthorToDto(as_[i])
  {
    if as_ == [] then [] else [AuthorToDto(as_[0])] + MapAuthors(as_[1..])
  }
}
