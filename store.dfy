/** The module-level `authors` and `books` arrays as one store object, with
    the resolvers as functions that read it and the two mutations as methods
    that append to it. */
module Server {
  import opened Wrappers
  import opened Records
  import opened Queries

  class Store {
    /** The authors table, in insertion order. */
    var authors: seq<Author>
    /** The books table, in insertion order. */
    var books: seq<Book>

    /** Both tables start from seed data supplied by the caller. */
    constructor (seedAuthors: seq<Author>, seedBooks: seq<Book>)
      ensures authors == seedAuthors && books == seedBooks
    {
      authors := seedAuthors;
      books := seedBooks;
    }

    // Resolvers. Being functions that only read the store, none of them can
    // change either table.

    /** Root query `authors`: the table itself. When ids are unique, each
        listed author is what `author(id)` returns for its id. */
    function AllAuthors(): (r: seq<Author>)
      reads this
      ensures r == authors
      ensures UniqueKeys(authors, AuthorIdOf) ==>
        forall i :: 0 <= i < |r| ==> AuthorById(Some(r[i].id)) == Some(r[i])
    {
      assert UniqueKeys(authors, AuthorIdOf) ==>
        forall i :: 0 <= i < |authors| ==> AuthorById(Some(authors[i].id)) == Some(authors[i]) by {
        if UniqueKeys(authors, AuthorIdOf) {
          forall i | 0 <= i < |authors| ensures AuthorById(Some(authors[i].id)) == Some(authors[i]) {
            FindFirstUnique(authors, AuthorIdOf, authors[i]);
          }
        }
      }
      authors
    }

    /** Root query `books`: the table itself. When ids are unique, each
        listed book is what `book(id)` returns for its id. */
    function AllBooks(): (r: seq<Book>)
      reads this
      ensures r == books
      ensures UniqueKeys(books, BookIdOf) ==>
        forall i :: 0 <= i < |r| ==> BookById(Some(r[i].id)) == Some(r[i])
    {
      assert UniqueKeys(books, BookIdOf) ==>
        forall i :: 0 <= i < |books| ==> BookById(Some(books[i].id)) == Some(books[i]) by {
        if UniqueKeys(books, BookIdOf) {
          forall i | 0 <= i < |books| ensures BookById(Some(books[i].id)) == Some(books[i]) {
            FindFirstUnique(books, BookIdOf, books[i]);
          }
        }
      }
      books
    }

    /** Root query `author(id)`: nothing for an absent id; otherwise the
        first stored author with that id, or nothing if there is none. */
    function AuthorById(id: Option<int>): (r: Option<Author>)
      reads this
      ensures id.None? ==> r.None?
      ensures id.Some? ==> (r.None? <==> NoneWith(authors, AuthorIdOf, id.value))
      ensures r.Some? ==> id.Some? && IsFirstWith(authors, AuthorIdOf, id.value, r.value)
    {
      FindById(authors, AuthorIdOf, id)
    }

    /** Root query `book(id)`: nothing for an absent id; otherwise the first
        stored book with that id, or nothing if there is none. */
    function BookById(id: Option<int>): (r: Option<Book>)
      reads this
      ensures id.None? ==> r.None?
      ensures id.Some? ==> (r.None? <==> NoneWith(books, BookIdOf, id.value))
      ensures r.Some? ==> id.Some? && IsFirstWith(books, BookIdOf, id.value, r.value)
    {
      FindById(books, BookIdOf, id)
    }

    /** Field `Author.books`: exactly the stored books naming this author,
        in store order and with their multiplicity. */
    function BooksOf(author: Author): (r: seq<Book>)
      reads this
      ensures forall b :: b in r <==> b in books && b.authorId == author.id
      ensures exists idx :: MatchingPositions(books, author.id, idx) && ReadAt(books, idx, r)
    {
      BooksByAuthorSelects(books, author.id);
      BooksByAuthor(books, author.id)
    }

    /** Field `Book.author`: the first stored author with the book's
        `authorId`, or nothing when that id dangles. */
    function AuthorOf(book: Book): (r: Option<Author>)
      reads this
      ensures r.None? <==> NoneWith(authors, AuthorIdOf, book.authorId)
      ensures r.Some? ==> r.value in authors && r.value.id == book.authorId
      ensures r.Some? ==> IsFirstWith(authors, AuthorIdOf, book.authorId, r.value)
    {
      AuthorOfBook(authors, book)
    }

    /** Mutation `addBook(name, authorId)`: appends a book numbered
        `length + 1` and returns it. Any `authorId` is accepted. */
    method AddBook(name: string, authorId: int) returns (book: Book)
      modifies this`books
      ensures book == Book(|old(books)| + 1, name, authorId)
      ensures books == old(books) + [book]
      ensures authors == old(authors)
      ensures AuthorOf(book).None? <==> NoneWith(authors, AuthorIdOf, authorId)
      ensures BooksByAuthor(books, authorId) == BooksByAuthor(old(books), authorId) + [book]
      ensures forall id :: id != authorId ==> BooksByAuthor(books, id) == BooksByAuthor(old(books), id)
      ensures forall id ::
        (BookById(Some(id)) ==
         if old(BookById(Some(id))).Some? then old(BookById(Some(id)))
         else if id == book.id then Some(book) else None)
      ensures old(DenseIds(books, BookIdOf)) ==>
        DenseIds(books, BookIdOf) && NoneWith(old(books), BookIdOf, book.id)
      ensures old(DenseIds(books, BookIdOf)) ==> BookById(Some(book.id)) == Some(book)
    {
      ghost var before := books;
      book := Book(|books| + 1, name, authorId);
      books := books + [book];
      BooksByAuthorAppend(before, book, authorId);
      forall id | id != authorId ensures BooksByAuthor(books, id) == BooksByAuthor(before, id) {
        BooksByAuthorAppend(before, book, id);
      }
      forall id ensures FindFirst(books, BookIdOf, id) ==
        if FindFirst(before, BookIdOf, id).Some? then FindFirst(before, BookIdOf, id)
        else if id == book.id then Some(book) else None
      {
        FindFirstAppend(before, BookIdOf, id, book);
      }
      if DenseIds(before, BookIdOf) {
        DenseAppend(before, BookIdOf, book);
        DenseLookup(books, BookIdOf, book.id);
      }
    }

    /** Mutation `addAuthor(name)`: appends an author numbered `length + 1`
        and returns it. A book whose `authorId` dangled at that id now
        resolves to the new author. */
    method AddAuthor(name: string) returns (author: Author)
      modifies this`authors
      ensures author == Author(|old(authors)| + 1, name)
      ensures authors == old(authors) + [author]
      ensures books == old(books)
      ensures forall b: Book ::
        (AuthorOf(b) ==
         if old(AuthorOf(b)).Some? then old(AuthorOf(b))
         else if b.authorId == author.id then Some(author) else None)
      ensures forall id ::
        (AuthorById(Some(id)) ==
         if old(AuthorById(Some(id))).Some? then old(AuthorById(Some(id)))
         else if id == author.id then Some(author) else None)
      ensures old(DenseIds(authors, AuthorIdOf)) ==>
        DenseIds(authors, AuthorIdOf) && NoneWith(old(authors), AuthorIdOf, author.id)
      ensures old(DenseIds(authors, AuthorIdOf)) ==> AuthorById(Some(author.id)) == Some(author)
    {
      ghost var before := authors;
      author := Author(|authors| + 1, name);
      authors := authors + [author];
      forall id ensures FindFirst(authors, AuthorIdOf, id) ==
        if FindFirst(before, AuthorIdOf, id).Some? then FindFirst(before, AuthorIdOf, id)
        else if id == author.id then Some(author) else None
      {
        FindFirstAppend(before, AuthorIdOf, id, author);
      }
      if DenseIds(before, AuthorIdOf) {
        DenseAppend(before, AuthorIdOf, author);
        DenseLookup(authors, AuthorIdOf, author.id);
      }
    }
  }

  /** The worked example of the system: one seed author `J` with one book
      `B`; `author(id: 1)` finds `J` and its book list is `[B]`; then
      `addAuthor(name: "K")` returns `{ id: 2, name: "K" }` and `authors`
      lists both. */
  method SeedExample() returns (found: Option<Author>, listed: seq<Book>, added: Author, all: seq<Author>)
    ensures found == Some(Author(1, "J"))
    ensures listed == [Book(1, "B", 1)]
    ensures added == Author(2, "K")
    ensures all == [Author(1, "J"), Author(2, "K")]
  {
    var store := new Store([Author(1, "J")], [Book(1, "B", 1)]);
    assert DenseIds(store.authors, AuthorIdOf);
    found := store.AuthorById(Some(1));
    DenseLookup(store.authors, AuthorIdOf, 1);
    listed := store.BooksOf(found.value);
    assert store.books[1..] == [];
    added := store.AddAuthor("K");
    all := store.AllAuthors();
  }

  /** Without dense seed ids, `length + 1` can reuse an id: from the single
      seed author `{ id: 2, name: "X" }`, `addAuthor(name: "Y")` returns
      `{ id: 2, name: "Y" }`, and `author(id: 2)` still returns the seed
      author, so the new one can never be looked up by its id. */
  method CollisionExample() returns (added: Author, found: Option<Author>)
    ensures added == Author(2, "Y")
    ensures found == Some(Author(2, "X"))
  {
    var store := new Store([Author(2, "X")], []);
    assert store.AuthorById(Some(2)).Some?;
    added := store.AddAuthor("Y");
    found := store.AuthorById(Some(2));
  }
}
