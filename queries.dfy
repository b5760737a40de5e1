/** The read-only side of the store: the linear scans the resolvers perform
    over the two tables (`Array.prototype.find` and `Array.prototype.filter`),
    and the dense-id invariant that id assignment by `length + 1` relies on. */
module Queries {
  import opened Wrappers
  import opened Records

  // ---------------------------------------------------------------------
  // Find-first by key
  // ---------------------------------------------------------------------

  /** No element of `s` has key `k`. */
  ghost predicate NoneWith<T>(s: seq<T>, key: T -> int, k: int) {
    forall i :: 0 <= i < |s| ==> key(s[i]) != k
  }

  /** `x` is the element at the first position of `s` whose key is `k`. */
  ghost predicate IsFirstWith<T>(s: seq<T>, key: T -> int, k: int, x: T) {
    exists i :: 0 <= i < |s| && s[i] == x && key(s[i]) == k &&
      forall j :: 0 <= j < i ==> key(s[j]) != k
  }

  /** No two positions of `s` carry the same key. */
  ghost predicate UniqueKeys<T>(s: seq<T>, key: T -> int) {
    forall i, j :: 0 <= i < j < |s| ==> key(s[i]) != key(s[j])
  }

  /** The position-`i+1` element of `s` is the position-`i` element of `s[1..]`:
      shifting a first match found in the tail. */
  lemma {:induction false} FirstWithInTail<T>(s: seq<T>, key: T -> int, k: int, x: T)
    requires |s| > 0 && key(s[0]) != k
    requires IsFirstWith(s[1..], key, k, x)
    ensures IsFirstWith(s, key, k, x)
  {
    var i :| 0 <= i < |s[1..]| && s[1..][i] == x && key(s[1..][i]) == k &&
      forall j :: 0 <= j < i ==> key(s[1..][j]) != k;
    assert s[i + 1] == x && key(s[i + 1]) == k;
    forall j | 0 <= j < i + 1 ensures key(s[j]) != k {
      if j > 0 { assert s[j] == s[1..][j - 1]; }
    }
  }

  /** `find((x) => x.key === k)`: the first element of `s`, in order, whose
      key is `k`, or `None` when there is none. */
  function FindFirst<T>(s: seq<T>, key: T -> int, k: int): (r: Option<T>)
    ensures r.None? <==> NoneWith(s, key, k)
    ensures r.Some? ==> IsFirstWith(s, key, k, r.value)
  {
    if s == [] then None
    else if key(s[0]) == k then
      assert IsFirstWith(s, key, k, s[0]) by { assert s[0] == s[0]; }
      Some(s[0])
    else
      var r := FindFirst(s[1..], key, k);
      assert r.None? ==> NoneWith(s, key, k) by {
        if r.None? {
          forall i | 0 <= i < |s| ensures key(s[i]) != k {
            if i > 0 { assert s[i] == s[1..][i - 1]; }
          }
        }
      }
      assert NoneWith(s, key, k) ==> r.None? by {
        if r.Some? {
          var i :| 0 <= i < |s[1..]| && s[1..][i] == r.value && key(s[1..][i]) == k &&
            forall j :: 0 <= j < i ==> key(s[1..][j]) != k;
          assert key(s[i + 1]) == k;
        }
      }
      if r.Some? then FirstWithInTail(s, key, k, r.value); r else r
  }

  /** The contract of `FindFirst` pins its result down: there is only one
      first match. */
  lemma {:induction false} FirstWithIsUnique<T>(s: seq<T>, key: T -> int, k: int, x: T, y: T)
    requires IsFirstWith(s, key, k, x) && IsFirstWith(s, key, k, y)
    ensures x == y
  {
    var i :| 0 <= i < |s| && s[i] == x && key(s[i]) == k &&
      forall j :: 0 <= j < i ==> key(s[j]) != k;
    var i' :| 0 <= i' < |s| && s[i'] == y && key(s[i']) == k &&
      forall j :: 0 <= j < i' ==> key(s[j]) != k;
    assert i == i';
  }

  /** With keys unique, the first match for `k` is the one element with key `k`. */
  lemma {:induction false} FindFirstUnique<T>(s: seq<T>, key: T -> int, x: T)
    requires UniqueKeys(s, key) && x in s
    ensures FindFirst(s, key, key(x)) == Some(x)
  {
    var r := FindFirst(s, key, key(x));
    var p :| 0 <= p < |s| && s[p] == x;
    assert !NoneWith(s, key, key(x)) by { assert key(s[p]) == key(x); }
    var i :| 0 <= i < |s| && s[i] == r.value && key(s[i]) == key(x) &&
      forall j :: 0 <= j < i ==> key(s[j]) != key(x);
    assert i == p;
  }

  /** Finding in a table with one more record at the end: an earlier match
      still wins, and only when there is none can the new record be found. */
  lemma {:induction false} FindFirstAppend<T>(s: seq<T>, key: T -> int, k: int, x: T)
    ensures FindFirst(s + [x], key, k) ==
      if FindFirst(s, key, k).Some? then FindFirst(s, key, k)
      else if key(x) == k then Some(x) else None
  {
    if s == [] {
      assert [x][1..] == [];
    } else {
      assert (s + [x])[0] == s[0];
      assert (s + [x])[1..] == s[1..] + [x];
      FindFirstAppend(s[1..], key, k, x);
    }
  }

  /** The root queries `book(id)` and `author(id)`: the argument is nullable,
      and an absent id (`undefined` in JavaScript) equals no record's id. */
  function FindById<T>(s: seq<T>, key: T -> int, id: Option<int>): (r: Option<T>)
    ensures id.None? ==> r.None?
    ensures id.Some? ==> (r.None? <==> NoneWith(s, key, id.value))
    ensures r.Some? ==> id.Some? && IsFirstWith(s, key, id.value, r.value)
  {
    match id
    case None => None
    case Some(k) => FindFirst(s, key, k)
  }

  // ---------------------------------------------------------------------
  // The two relation fields
  // ---------------------------------------------------------------------

  /** `Book.author`: the first author whose id is the book's `authorId`;
      a dangling `authorId` gives `None`, not an error. */
  function AuthorOfBook(authors: seq<Author>, book: Book): (r: Option<Author>)
    ensures r.None? <==> forall i :: 0 <= i < |authors| ==> authors[i].id != book.authorId
    ensures r.Some? ==> r.value in authors && r.value.id == book.authorId
    ensures r.Some? ==> IsFirstWith(authors, AuthorIdOf, book.authorId, r.value)
  {
    var r := FindFirst(authors, AuthorIdOf, book.authorId);
    assert r.Some? ==> r.value in authors && r.value.id == book.authorId by {
      if r.Some? {
        var i :| 0 <= i < |authors| && authors[i] == r.value && AuthorIdOf(authors[i]) == book.authorId &&
          forall j :: 0 <= j < i ==> AuthorIdOf(authors[j]) != book.authorId;
      }
    }
    assert r.None? <==> forall i :: 0 <= i < |authors| ==> authors[i].id != book.authorId by {
      assert forall i :: 0 <= i < |authors| ==> AuthorIdOf(authors[i]) == authors[i].id;
    }
    r
  }

  /** `Author.books`: the books whose `authorId` is `authorId`, in store order.
      Membership is exact; `BooksByAuthorSelects` adds order and multiplicity. */
  function BooksByAuthor(books: seq<Book>, authorId: int): (r: seq<Book>)
    ensures forall b :: b in r <==> b in books && b.authorId == authorId
    ensures |r| <= |books|
  {
    if books == [] then []
    else
      var rest := BooksByAuthor(books[1..], authorId);
      assert forall b :: b in books <==> b == books[0] || b in books[1..] by {
        assert books == [books[0]] + books[1..];
      }
      if books[0].authorId == authorId then [books[0]] + rest else rest
  }

  /** `idx` lists, strictly increasing, exactly the positions of `books` whose
      `authorId` is `authorId`. */
  ghost predicate MatchingPositions(books: seq<Book>, authorId: int, idx: seq<int>) {
    (forall k :: 0 <= k < |idx| ==> 0 <= idx[k] < |books|) &&
    (forall k, l :: 0 <= k < l < |idx| ==> idx[k] < idx[l]) &&
    (forall i :: 0 <= i < |books| ==> (books[i].authorId == authorId <==> i in idx))
  }

  /** `r` is `books` read at the positions `idx`, in that order. */
  ghost predicate ReadAt(books: seq<Book>, idx: seq<int>, r: seq<Book>) {
    |idx| == |r| &&
    forall k :: 0 <= k < |idx| ==> 0 <= idx[k] < |books| && r[k] == books[idx[k]]
  }

  /** Positions `idx` moved one place to the right. */
  function Shift(idx: seq<int>): seq<int> {
    seq(|idx|, k requires 0 <= k < |idx| => idx[k] + 1)
  }

  /** The positions of a table with one more book in front. */
  function ConsPositions(matches: bool, idx: seq<int>): seq<int> {
    if matches then [0] + Shift(idx) else Shift(idx)
  }

  lemma {:induction false} MatchingPositionsCons(books: seq<Book>, authorId: int, idx: seq<int>)
    requires |books| > 0 && MatchingPositions(books[1..], authorId, idx)
    ensures MatchingPositions(books, authorId, ConsPositions(books[0].authorId == authorId, idx))
  {
    var tail, shifted := books[1..], Shift(idx);
    var all := ConsPositions(books[0].authorId == authorId, idx);
    forall i | 0 <= i < |books| ensures books[i].authorId == authorId <==> i in all {
      if i > 0 {
        assert books[i] == tail[i - 1];
        if i - 1 in idx {
          var k :| 0 <= k < |idx| && idx[k] == i - 1;
          assert shifted[k] == i;
        }
        if i in shifted {
          var k :| 0 <= k < |shifted| && shifted[k] == i;
          assert idx[k] == i - 1;
        }
      } else {
        assert 0 !in shifted;
      }
    }
  }

  lemma {:induction false} ReadAtCons(books: seq<Book>, idx: seq<int>, r: seq<Book>, matches: bool)
    requires |books| > 0 && ReadAt(books[1..], idx, r)
    ensures ReadAt(books, ConsPositions(matches, idx), if matches then [books[0]] + r else r)
  {
    var shifted := Shift(idx);
    forall k | 0 <= k < |idx| ensures 0 <= shifted[k] < |books| && r[k] == books[shifted[k]] {
      assert books[idx[k] + 1] == books[1..][idx[k]];
    }
  }

  /** `Author.books` keeps every matching book, no other book, each once per
      occurrence, in the order the store holds them (`filter`). */
  lemma {:induction false} BooksByAuthorSelects(books: seq<Book>, authorId: int)
    ensures exists idx ::
      MatchingPositions(books, authorId, idx) && ReadAt(books, idx, BooksByAuthor(books, authorId))
  {
    if books == [] {
      assert MatchingPositions(books, authorId, []) && ReadAt(books, [], []);
    } else {
      var tail := books[1..];
      BooksByAuthorSelects(tail, authorId);
      var idx :| MatchingPositions(tail, authorId, idx) &&
        ReadAt(tail, idx, BooksByAuthor(tail, authorId));
      var matches := books[0].authorId == authorId;
      MatchingPositionsCons(books, authorId, idx);
      ReadAtCons(books, idx, BooksByAuthor(tail, authorId), matches);
      assert MatchingPositions(books, authorId, ConsPositions(matches, idx)) &&
        ReadAt(books, ConsPositions(matches, idx), BooksByAuthor(books, authorId));
    }
  }

  /** Appending one book extends `Author.books` by that book exactly when it
      matches, so `addBook` shows up at the end of its author's list. */
  lemma {:induction false} BooksByAuthorAppend(books: seq<Book>, b: Book, authorId: int)
    ensures BooksByAuthor(books + [b], authorId) ==
      BooksByAuthor(books, authorId) + (if b.authorId == authorId then [b] else [])
  {
    if books == [] {
      assert [b][1..] == [];
    } else {
      assert (books + [b])[1..] == books[1..] + [b];
      BooksByAuthorAppend(books[1..], b, authorId);
    }
  }

  /** The two relation fields are inverse to each other when author ids are
      unique: a stored book is listed under an author exactly when its
      `author` field resolves to that author. */
  lemma RelationsAgree(authors: seq<Author>, books: seq<Book>, a: Author, b: Book)
    requires UniqueKeys(authors, AuthorIdOf) && a in authors && b in books
    ensures b in BooksByAuthor(books, a.id) <==> AuthorOfBook(authors, b) == Some(a)
  {
    if b.authorId == a.id {
      FindFirstUnique(authors, AuthorIdOf, a);
    }
  }

  // ---------------------------------------------------------------------
  // Dense ids
  // ---------------------------------------------------------------------

  /** The record at position `i` has id `i + 1`: what `length + 1` id
      assignment produces from an empty table. */
  ghost predicate DenseIds<T>(s: seq<T>, key: T -> int) {
    forall i :: 0 <= i < |s| ==> key(s[i]) == i + 1
  }

  /** Dense ids are unique ids. */
  lemma DenseIdsAreUnique<T>(s: seq<T>, key: T -> int)
    requires DenseIds(s, key)
    ensures UniqueKeys(s, key)
  {
  }

  /** Appending a record whose id is `length + 1` keeps the ids dense; that id
      was not in use before. */
  lemma DenseAppend<T>(s: seq<T>, key: T -> int, x: T)
    requires DenseIds(s, key) && key(x) == |s| + 1
    ensures DenseIds(s + [x], key)
    ensures NoneWith(s, key, key(x))
  {
  }

  /** Under dense ids a lookup by id is positional: id `k` finds the record at
      position `k - 1`, and an id outside `1..|s|` finds nothing. */
  lemma {:induction false} DenseLookup<T>(s: seq<T>, key: T -> int, k: int)
    requires DenseIds(s, key)
    ensures FindFirst(s, key, k) == if 1 <= k <= |s| then Some(s[k - 1]) else None
  {
    if 1 <= k <= |s| {
      DenseIdsAreUnique(s, key);
      FindFirstUnique(s, key, s[k - 1]);
    } else {
      assert NoneWith(s, key, k);
    }
  }
}
