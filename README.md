# Author/book store of a GraphQL tutorial server

The server keeps two in-memory tables, `authors` (`{ id, name }`) and
`books` (`{ id, name, authorId }`). Its GraphQL resolvers read them by
linear scan:
- `Author.books` filters the books by `authorId`;
- `Book.author`, `author(id)` and `book(id)` find the first record with a
  matching id;
- `authors` and `books` return a whole table.

Its two mutations append to the tables. `addBook(name, authorId)` and
`addAuthor(name)` give the new record `id = length + 1` and return it.
Neither checks that the id is unused, and `addBook` does not check that
`authorId` names an author.

The model has four modules:
- `Wrappers`: the `Option` type, standing for GraphQL `null`.
- `Records`: the `Author` and `Book` datatypes.
- `Queries`: the find-first and filter scans as pure functions over
  sequences. This module also has the dense-id invariant and its lemmas.
- `Server`: a `Store` class that holds both tables as `seq` fields.
  - The resolvers are functions that read the store, so they cannot change
    it.
  - `AddBook` and `AddAuthor` are methods that modify one field each.
  - The seed tables are constructor arguments.

Ids are *dense* when the record at position `i` has id `i + 1`. This is
never assumed of the seed data. The mutations' postconditions that depend
on it read `old(DenseIds(…)) ==> …`, over the one table that grows. They
show that both appends preserve density. They also show that, under
density, the new id was unused and looking it up returns the new record.
`CollisionExample` shows what can happen otherwise. From the seed author
`{ id: 2 }`, `addAuthor` assigns id 2 again, and `author(2)` still returns
the seed author.

## Model

| member | source | states |
|---|---|---|
| `Queries.FindFirst` | server.js:28 | the result is None exactly when no element has the key, and otherwise is the element at the first position whose key matches (`Array.prototype.find`) |
| `Queries.FirstWithIsUnique` | server.js:28 | the first-match property allows only one element, so FindFirst's contract fixes its result |
| `Queries.FindFirstAppend` | server.js:28 | after one record is appended, a lookup returns the old first match if there was one; otherwise it returns the new record when its key matches, and None when it does not |
| `Queries.FindFirstUnique` | server.js:60 | when ids are unique, looking up the id of any stored record returns that record |
| `Queries.FindById` | server.js:50-66 | `book(id)` / `author(id)`: an absent (nullable) id gives None; a present id gives None exactly when no record has it, and otherwise the first record with that id |
| `Queries.AuthorOfBook` | server.js:28 | `Book.author` is None exactly when no author has the book's `authorId` (a dangling id is not an error); otherwise it is a stored author with that id, the first one in table order |
| `Queries.BooksByAuthor` | server.js:14 | `Author.books` contains a book exactly when it is stored and its `authorId` is the author's id |
| `Queries.BooksByAuthorSelects` | server.js:14 | `Author.books` is the table read at exactly the matching positions, in increasing order: no matching book is omitted, none is added, and store order is kept |
| `Queries.BooksByAuthorAppend` | server.js:14 | appending a book adds it to the end of its own author's `books` list and leaves every other author's list unchanged |
| `Queries.RelationsAgree` | server.js:14-28 | when author ids are unique, a stored book is in `Author.books` of author `a` exactly when its `Book.author` resolves to `a` |
| `Queries.DenseIdsAreUnique` | server.js:86 | dense ids are pairwise distinct |
| `Queries.DenseAppend` | server.js:86-87 | appending a record whose id is `length + 1` keeps the ids dense, and that id was unused before |
| `Queries.DenseLookup` | server.js:50 | under dense ids, looking up id `k` returns the record at position `k - 1`, and None when `k` is outside `1..length` |
| `Server.Store.constructor` | server.js:4 | the tables start out as the given seed data |
| `Server.Store.AllAuthors` | server.js:40 | root query `authors` returns the table itself; when author ids are unique, `author(id)` returns each listed author for its own id |
| `Server.Store.AllBooks` | server.js:45 | root query `books` returns the table itself; when book ids are unique, `book(id)` returns each listed book for its own id |
| `Server.Store.AuthorById` | server.js:57-66 | root query `author(id)`: None for an absent id; otherwise None exactly when no stored author has the id, and else the first one that does |
| `Server.Store.BookById` | server.js:47-56 | root query `book(id)`: None for an absent id; otherwise None exactly when no stored book has the id, and else the first one that does |
| `Server.Store.BooksOf` | server.js:12-15 | field `Author.books` contains a book exactly when it is stored and its `authorId` is the author's id, and it is the table read at exactly the matching positions in increasing order, so store order and multiplicity are kept |
| `Server.Store.AuthorOf` | server.js:26-29 | field `Book.author` is None exactly when no stored author has the book's `authorId`; otherwise it is the stored author with that id at the first such position |
| `Server.Store.AddBook` | server.js:85-88 | appends exactly `{ id: old length + 1, name, authorId }` and returns it, with `authors` unchanged. See "AddBook details" below the table |
| `Server.Store.AddAuthor` | server.js:99-102 | appends exactly `{ id: old length + 1, name }` and returns it, with `books` unchanged. See "AddAuthor details" below the table |
| `Server.CollisionExample` | server.js:99-102 | for the seed `[Author(2, "X")]`, `addAuthor("Y")` returns id 2 again, and `author(2)` then returns the seed author, not the new one |
| `Server.SeedExample` | server.js:40-102 | worked example: with seeds J and B, `author(1)` is J and its `books` is `[B]`; `addAuthor("K")` returns `{2, "K"}` and `authors` then lists J and K |

AddBook details:
- The new book's `author` field is None exactly when no author has that
  `authorId`.
- Only its own author's `books` list changes, and it gains the new book at
  the end.
- `book(id)` returns what it returned before whenever that was a book. When
  it was None, it now returns the new book for the new id and None for any
  other id.
- If book ids were dense before, they stay dense, the new id was unused,
  and `book(newId)` returns the new book.

AddAuthor details:
- `Book.author` of any book keeps an author it already resolved to. A book
  that dangled and names the new id now resolves to the new author. Every
  other dangling book still resolves to None.
- `author(id)` changes the same way: only an id that found nothing before,
  and is the new id, now finds the new author.
- If author ids were dense before, they stay dense, the new id was unused,
  and `author(newId)` returns the new author.

The resolvers `AllAuthors`, `AllBooks`, `AuthorById`, `BookById`,
`BooksOf` and `AuthorOf` are functions that only read the store. So none of
them can change either table.

## Left out

- The Express app, the `/graphql` route, the GraphiQL console and the
  listener (server.js:113-122) are HTTP and I/O, so they are not modelled.
- The GraphQL type declarations and the schema (server.js:6-11, 19-25,
  108-111) are not modelled. The argument checks they imply (required
  `name` and `authorId`, the 32-bit range of `GraphQLInt`) are done by the
  `graphql` library before a resolver runs. So the mutations take a
  `string` and an unbounded `int`.
- Field selection and response shaping by the GraphQL executor are not
  modelled, because they belong to that library.
- The seed module `./data` (server.js:4) is not part of this model. The
  seed tables are constructor arguments, and nothing is assumed about them.
- JavaScript numbers are doubles. `length + 1` is modelled as an unbounded
  integer, which agrees with `server.js` for tables shorter than 2^53.
- `===` is modelled as integer equality. The model assumes seed ids and
  `authorId`s are integers; it does not cover mixed JavaScript types in the
  seed data.
