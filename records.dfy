/** The two record shapes held by the store. */
module Records {

  /** An author: `{ id, name }`. */
  datatype Author = Author(id: int, name: string)

  /** A book: `{ id, name, authorId }`; `authorId` is meant to name an author
      but nothing enforces that. */
  datatype Book = Book(id: int, name: string, authorId: int)

  /** The key an author is looked up by. */
  function AuthorIdOf(a: Author): int { a.id }

  /** The key a book is looked up by. */
  function BookIdOf(b: Book): int { b.id }
}
