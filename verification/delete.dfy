/** Deleting a catalogue entry. `DeleteBook` is the statement sequence as
    written: it resolves one linked author through the first row of a join,
    takes one off that author's count, and deletes the book row. The code
    deletes no link itself; the model takes the links of the deleted book to
    go with it, as a cascading foreign key would remove them (the schema is
    not part of this model). `DeleteBookAll` is the corrected
    deletion, which takes one off every linked author. */
module Delete {
  import opened Base
  import opened Store

  /** The deletion's store after the book row and its links are gone and
      `authors` holds the adjusted counts. */
  function Without(s: State, id: int, authors: map<Hash, AuthorRow>): (r: State)
    requires id in s.books
    ensures r.books.Keys == s.books.Keys - {id}
    ensures forall b :: b in r.books ==> r.books[b] == s.books[b]
    ensures AuthorsOf(r.links, s.books[id].hash) == {}
    ensures forall k :: k != s.books[id].hash ==> AuthorsOf(r.links, k) == AuthorsOf(s.links, k)
    ensures r.authors == authors
    ensures r.nextBookId == s.nextBookId && r.nextAuthorId == s.nextAuthorId
  {
    s.(books := s.books - {id}, authors := authors, links := Unlink(s.links, s.books[id].hash))
  }

  /** `DeleteEntryModel.DeleteBook` as written. Every failure is "not
      found": no row for the join (no such book, or a book without links),
      no author row for the resolved key, or no book row to delete. The
      "edit conflict" branch is never taken, since a statement that returns
      no rows does not report "no rows" as an error. Which linked author the
      join's first row names is not specified, so it is any one of them. */
  ghost function DeleteBook(s: State, id: int): (r: Result<State, Error>)
    ensures r.Err? ==> r.error == NotFound
    ensures id !in s.books ==> r.Err?
    ensures id in s.books && AuthorsOf(s.links, s.books[id].hash) == {} ==> r.Err?
    ensures r.Ok? ==> && id in s.books
                      && exists a :: && a in AuthorsOf(s.links, s.books[id].hash) && a in s.authors
                                     && r.value == Without(s, id, s.authors[a := s.authors[a].(count := s.authors[a].count - 1)])
  {
    if id !in s.books then Err(NotFound)
    else
      var linked := AuthorsOf(s.links, s.books[id].hash);
      if linked == {} then Err(NotFound)
      else
        var a :| a in linked;
        if a !in s.authors then Err(NotFound)
        else Ok(Without(s, id, s.authors[a := s.authors[a].(count := s.authors[a].count - 1)]))
  }

  /** The corrected deletion: every linked author loses one from
      its count, and the book row and all its links go. */
  function DeleteBookAll(s: State, id: int): (r: Result<State, Error>)
    ensures r.Err? ==> r.error == NotFound
    ensures r.Ok? <==> && id in s.books
                       && !(AuthorsOf(s.links, s.books[id].hash) !! s.authors.Keys)
    ensures r.Ok? ==> r.value == Without(s, id, DecrementAll(s.authors, AuthorsOf(s.links, s.books[id].hash)))
  {
    if id !in s.books then Err(NotFound)
    else
      var linked := AuthorsOf(s.links, s.books[id].hash);
      if linked !! s.authors.Keys then Err(NotFound)
      else Ok(Without(s, id, DecrementAll(s.authors, linked)))
  }

  /** Neither deletion ever reports an edit conflict. */
  lemma DeleteNeverConflicts(s: State, id: int)
    ensures DeleteBook(s, id) != Err(EditConflict)
    ensures DeleteBookAll(s, id) != Err(EditConflict)
  {
  }

  /** In a consistent store the multi-author-safe deletion succeeds exactly
      when the id names a book that has links. */
  lemma DeleteBookAllSucceeds(s: State, id: int)
    requires LinksResolve(s)
    ensures DeleteBookAll(s, id).Ok? <==> id in s.books && AuthorsOf(s.links, s.books[id].hash) != {}
  {
    if id in s.books && AuthorsOf(s.links, s.books[id].hash) != {} {
      var a :| a in AuthorsOf(s.links, s.books[id].hash);
      assert (s.books[id].hash, a) in s.links;
    }
  }

  /** In a store whose links resolve, the deletion as written succeeds
      exactly when the id names a book that has links: whichever linked
      author the join names has a row. */
  lemma DeleteBookSucceeds(s: State, id: int)
    requires LinksResolve(s)
    ensures DeleteBook(s, id).Ok? <==> id in s.books && AuthorsOf(s.links, s.books[id].hash) != {}
  {
    if id in s.books {
      var key := s.books[id].hash;
      forall a | a in AuthorsOf(s.links, key) ensures a in s.authors {
        assert (key, a) in s.links;
      }
    }
  }

  /** The multi-author-safe deletion keeps the catalogue consistent. */
  lemma DeleteBookAllKeepsConsistency(s: State, id: int)
    requires Consistent(s)
    requires DeleteBookAll(s, id).Ok?
    ensures Consistent(DeleteBookAll(s, id).value)
  {
    var t := DeleteBookAll(s, id).value;
    var key := s.books[id].hash;
    assert Unlink(s.links, key) + LinkAll(key, {}) == t.links;
    RelinkKeepsCounts(s, t, key, key, {});
    RemoveBookKeys(s.books, id);
    RelinkKeepsResolve(s, t, key, key, {});
  }

  /** For a book with one author, both deletions are the same transition. */
  lemma DeleteOneAuthorIsDeleteAll(s: State, id: int)
    requires id in s.books
    requires |AuthorsOf(s.links, s.books[id].hash)| == 1
    ensures DeleteBook(s, id) == DeleteBookAll(s, id)
  {
    var linked := AuthorsOf(s.links, s.books[id].hash);
    var a :| a in linked;
    assert linked == {a} by {
      assert |linked - {a}| == 0;
      assert linked == (linked - {a}) + {a};
    }
    if a in s.authors {
      assert s.authors[a := s.authors[a].(count := s.authors[a].count - 1)] == DecrementAll(s.authors, linked);
    }
  }

  /** The code as written keeps the catalogue consistent for a book with a
      single author. */
  lemma DeleteOneAuthorKeepsConsistency(s: State, id: int)
    requires Consistent(s)
    requires id in s.books && |AuthorsOf(s.links, s.books[id].hash)| == 1
    requires DeleteBook(s, id).Ok?
    ensures Consistent(DeleteBook(s, id).value)
  {
    DeleteOneAuthorIsDeleteAll(s, id);
    DeleteBookAllKeepsConsistency(s, id);
  }

  // ------------------------------------------------------------ counterexample

  /** One book `X` by two authors `A` and `B`: a consistent store. */
  function CoAuthored(): State {
    var x, a, b := [1], [3], [4];
    State(map[1 := BookRow(x, [88], [80], 2000, 10, [[71]], 1)],
          map[a := AuthorRow(1, [65], 1), b := AuthorRow(2, [66], 1)],
          {(x, a), (x, b)}, 2, 3)
  }

  lemma CoAuthoredConsistent()
    ensures Consistent(CoAuthored())
  {
    var s := CoAuthored();
    var x, a, b: Hash := [1], [3], [4];
    assert BooksOf(s.links, a) == {x};
    assert BooksOf(s.links, b) == {x};
    assert s.books[1].hash == x;
    assert x in BookHashes(s.books);
  }

  /** As written, deleting a two-author book succeeds but leaves one of the
      authors counted for a book that is gone, whichever one the join named;
      the multi-author-safe deletion leaves both counts right. */
  lemma DeleteTwoAuthorsBreaksCounts()
    ensures Consistent(CoAuthored())
    ensures DeleteBook(CoAuthored(), 1).Ok?
    ensures !CountsMatch(DeleteBook(CoAuthored(), 1).value)
    ensures DeleteBookAll(CoAuthored(), 1).Ok?
    ensures CountsMatch(DeleteBookAll(CoAuthored(), 1).value)
  {
    CoAuthoredConsistent();
    var s := CoAuthored();
    var x, a, b: Hash := [1], [3], [4];
    assert AuthorsOf(s.links, x) == {a, b} by {
      assert (x, a) in s.links && (x, b) in s.links;
    }
    assert s.books[1].hash == x;
    var t := DeleteBook(s, 1).value;
    assert Unlink(s.links, x) == {};
    assert BooksOf(t.links, a) == {} && BooksOf(t.links, b) == {};
    var c :| c in AuthorsOf(s.links, x) && c in s.authors
             && t == Without(s, 1, s.authors[c := s.authors[c].(count := s.authors[c].count - 1)]);
    var other := if c == a then b else a;
    assert t.authors[other].count == 1;
    DeleteBookAllKeepsConsistency(s, 1);
  }
}
