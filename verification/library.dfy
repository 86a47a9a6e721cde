/** The `library` package: the Book entity the service passes between callers and the store. */
module Library {

  /** Go's `int64`, the type of a book's identifier. */
  newtype int64 = x: int | -0x8000_0000_0000_0000 <= x < 0x8000_0000_0000_0000

  /** A catalogue entry. The identifier is zero until the store has created the book. */
  datatype Book = Book(id: int64, title: string, author: string)
}
