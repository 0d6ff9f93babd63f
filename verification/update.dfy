/** Updating a catalogue entry: the patch entry's content keys and its
    validation, and `Update`, the five statements that rewrite the book row,
    adjust the ledger for the authors that came and went, and relink the
    book, as one transition of the store.

    `Update` is the statement sequence as written, by its effect on the
    tables: it looks the links up and writes them under the key of the new
    title, but never rewrites the stored key. `UpdateScanned` adds what the
    code reads back from the decrement, which fails whenever that statement
    matches a row. `UpdateRekeyed` is the corrected sequence, which moves the
    book to its new key and keeps the decrement's effect. */
module Update {
  import opened Base
  import opened Validation
  import opened Store

  /** `books.UpdateBook`: every field may be nil (`None`). */
  datatype UpdateBook = UpdateBook(id: Option<int>, hash: Option<Hash>, title: Option<Text>,
                                   publisher: Option<Text>, year: Option<int>, pages: Option<int>,
                                   genres: Option<seq<Text>>)

  /** `books.UpdateAuthors`. */
  datatype UpdateAuthors = UpdateAuthors(names: Option<seq<Text>>, hashes: seq<Hash>)

  datatype UpdateEntry = UpdateEntry(book: UpdateBook, authors: UpdateAuthors)

  /** The scalar fields the validator dereferences and the statements write
      are all set. */
  predicate Filled(b: UpdateBook) {
    b.title.Some? && b.publisher.Some? && b.year.Some? && b.pages.Some?
  }

  /** `UpdateEntry.HashEntries`: the book's key becomes `H` of the title and
      the i-th author key `H` of the i-th name. */
  function HashEntries(e: UpdateEntry, H: Text -> Text): (r: UpdateEntry)
    requires e.book.title.Some?
    ensures r.book == e.book.(hash := Some(H(e.book.title.value)))
    ensures r.authors.names == e.authors.names
    ensures |r.authors.hashes| == |e.authors.names.GetOr([])|
    ensures forall i :: 0 <= i < |r.authors.hashes|
                        ==> r.authors.hashes[i] == H(e.authors.names.value[i])
  {
    UpdateEntry(e.book.(hash := Some(H(e.book.title.value))),
                e.authors.(hashes := MapSeq(H, e.authors.names.GetOr([]))))
  }

  /** `UpdateEntry.ValidateEntry`: the same checks, bounds and short cuts as
      on create, over the dereferenced fields. */
  function ValidateEntry(e: UpdateEntry, v: Log, currentYear: int): (r: (bool, Log))
    requires Filled(e.book)
    ensures r.0 <==> && Valid(v)
                     && BookFieldsOk(e.book.title.value, e.book.publisher.value, e.book.year.value,
                                     e.book.pages.value, e.book.genres, currentYear)
                     && AuthorsOk(e.authors.names)
    ensures !BookFieldsOk(e.book.title.value, e.book.publisher.value, e.book.year.value,
                          e.book.pages.value, e.book.genres, currentYear)
            ==> BookKeysOnly(r.1, |v|)
  {
    ValidateFields(v, e.book.title.value, e.book.publisher.value, e.book.year.value,
                   e.book.pages.value, e.book.genres, e.authors.names, currentYear)
  }

  // ---------------------------------------------------------------- statements

  /** The row after the first statement: the new fields, the version one up,
      the key as it was. */
  function Rewritten(row: BookRow, b: UpdateBook): (r: BookRow)
    requires Filled(b)
    ensures r.hash == row.hash && r.version == row.version + 1
    ensures && r.title == b.title.value && r.publisher == b.publisher.value
            && r.year == b.year.value && r.pages == b.pages.value
    ensures r.genres == if b.genres.Some? then b.genres.value else []
  {
    row.(title := b.title.value, publisher := b.publisher.value, year := b.year.value,
         pages := b.pages.value, genres := b.genres.GetOr([]), version := row.version + 1)
  }

  /** The second statement, which runs only for a non-empty `exclusiveNew`. */
  function UpsertStep(authors: map<Hash, AuthorRow>, nextId: int, exclusiveNew: seq<Text>,
                      hashNew: seq<Hash>): (r: Result<(map<Hash, AuthorRow>, int), Error>)
    requires |exclusiveNew| == |hashNew|
    ensures exclusiveNew == [] ==> r == Ok((authors, nextId))
    ensures r.Err? <==> !NoDup(hashNew)
    ensures r.Ok? ==> && r.value.0.Keys == authors.Keys + Elems(hashNew)
                      && (forall a :: a in r.value.0
                            ==> r.value.0[a].count == CountOf(authors, a) + Ind(a in hashNew))
  {
    if |exclusiveNew| == 0 then Ok((authors, nextId))
    else Upsert(authors, nextId, exclusiveNew, hashNew)
  }

  /** The third statement, which runs only for a non-empty `hashOld`: one
      off every author whose key is listed (each row once, however often its
      key is), and an edit conflict when no row matches. */
  function DecrementStep(authors: map<Hash, AuthorRow>, hashOld: seq<Hash>)
    : (r: Result<map<Hash, AuthorRow>, Error>)
    ensures hashOld == [] ==> r == Ok(authors)
    ensures r.Err? <==> hashOld != [] && Elems(hashOld) !! authors.Keys
    ensures r.Err? ==> r.error == EditConflict
    ensures r.Ok? ==> && r.value.Keys == authors.Keys
                      && (forall a :: a in r.value
                            ==> r.value[a].count == authors[a].count - Ind(a in hashOld))
                      && (forall a :: a in r.value
                            ==> r.value[a].id == authors[a].id && r.value[a].name == authors[a].name)
  {
    if hashOld == [] then Ok(authors)
    else if Elems(hashOld) !! authors.Keys then Err(EditConflict)
    else Ok(DecrementAll(authors, Elems(hashOld)))
  }

  /** `UpdateEntryModel.Update` as written, by the statements' effect on
      the tables, the read-backs taken to succeed. The book row with the id
      gets the new fields and a new version but keeps its key; the ledger
      moves; then the links are deleted and re-inserted under the entry's
      key, the key of the new title, with an error when there was none to
      delete. */
  function Update(s: State, e: UpdateEntry, hashOld: seq<Hash>, exclusiveNew: seq<Text>,
                  hashNew: seq<Hash>): (r: Result<State, Error>)
    requires Filled(e.book)
    requires |exclusiveNew| == |hashNew|
    ensures e.book.id.None? || e.book.id.value !in s.books ==> r == Err(EditConflict)
    ensures r.Ok? ==> && e.book.id.Some? && e.book.id.value in s.books
                      && r.value.books == s.books[e.book.id.value := Rewritten(s.books[e.book.id.value], e.book)]
                      && r.value.books[e.book.id.value].hash == s.books[e.book.id.value].hash
    ensures r.Ok? ==> && e.book.hash.Some? && AuthorsOf(s.links, e.book.hash.value) != {}
                      && r.value.links == Unlink(s.links, e.book.hash.value)
                                          + LinkAll(e.book.hash.value, Elems(e.authors.hashes))
    ensures r.Ok? ==> && r.value.authors.Keys == s.authors.Keys + Elems(hashNew)
                      && (forall a :: a in r.value.authors
                            ==> r.value.authors[a].count
                                == CountOf(s.authors, a) + Ind(a in hashNew) - Ind(a in hashOld))
  {
    if e.book.id.None? || e.book.id.value !in s.books then Err(EditConflict)
    else
      var id := e.book.id.value;
      var books := s.books[id := Rewritten(s.books[id], e.book)];
      match UpsertStep(s.authors, s.nextAuthorId, exclusiveNew, hashNew)
      case Err(err) => Err(err)
      case Ok(up) =>
        match DecrementStep(up.0, hashOld)
        case Err(err) => Err(err)
        case Ok(authors) =>
          if e.book.hash.None? || AuthorsOf(s.links, e.book.hash.value) == {} then
            Err(StoreFailure(NoLinksDeleted))
          else
            var key := e.book.hash.value;
            Ok(State(books, authors, Unlink(s.links, key) + LinkAll(key, Elems(e.authors.hashes)),
                     s.nextBookId, up.1))
  }

  /** The third statement together with its read-back, as written. The
      statement returns one count per matched author row, and the code
      decodes the first row into an array of 32-bit counts passed by value;
      the driver's array decoder refuses a single integer, so a matched row
      is a decode failure. No matched row is "no rows", an edit conflict.
      Only an empty `hashOld`, which skips the statement, gets through. */
  function DecrementScanned(authors: map<Hash, AuthorRow>, hashOld: seq<Hash>)
    : (r: Result<map<Hash, AuthorRow>, Error>)
    ensures r.Ok? <==> hashOld == []
    ensures r.Ok? ==> r.value == authors
    ensures r.Err? && Elems(hashOld) !! authors.Keys ==> r.error == EditConflict
    ensures r.Err? && !(Elems(hashOld) !! authors.Keys) ==> r.error == StoreFailure(ScanFailed)
  {
    if hashOld == [] then Ok(authors)
    else if Elems(hashOld) !! authors.Keys then Err(EditConflict)
    else Err(StoreFailure(ScanFailed))
  }

  /** The decrement and its read-back agree on every input but one kind: a
      non-empty `hashOld` that matches an author row, which the statement
      applies and the read-back then turns into a failure. */
  lemma DecrementScannedDiverges(authors: map<Hash, AuthorRow>, hashOld: seq<Hash>)
    ensures (hashOld == [] || Elems(hashOld) !! authors.Keys)
            ==> DecrementScanned(authors, hashOld) == DecrementStep(authors, hashOld)
    ensures hashOld != [] && !(Elems(hashOld) !! authors.Keys)
            ==> && DecrementStep(authors, hashOld).Ok?
                && DecrementScanned(authors, hashOld) == Err(StoreFailure(ScanFailed))
  {
  }

  /** `UpdateEntryModel.Update` as written, read-back included: the
      statements of `Update`, except that the decrement's decode failure
      aborts the transaction. An update with names to drop never commits:
      where `Update` would commit it, this one fails with the decode error. */
  function UpdateScanned(s: State, e: UpdateEntry, hashOld: seq<Hash>, exclusiveNew: seq<Text>,
                         hashNew: seq<Hash>): (r: Result<State, Error>)
    requires Filled(e.book)
    requires |exclusiveNew| == |hashNew|
    ensures hashOld == [] ==> r == Update(s, e, hashOld, exclusiveNew, hashNew)
    ensures r.Ok? ==> hashOld == [] && r == Update(s, e, hashOld, exclusiveNew, hashNew)
    ensures hashOld != [] && Update(s, e, hashOld, exclusiveNew, hashNew).Ok?
            ==> r == Err(StoreFailure(ScanFailed))
    ensures e.book.id.None? || e.book.id.value !in s.books ==> r == Err(EditConflict)
  {
    if e.book.id.None? || e.book.id.value !in s.books then Err(EditConflict)
    else
      match UpsertStep(s.authors, s.nextAuthorId, exclusiveNew, hashNew)
      case Err(err) => Err(err)
      case Ok(up) =>
        match DecrementScanned(up.0, hashOld)
        case Err(err) => Err(err)
        case Ok(_) => Update(s, e, hashOld, exclusiveNew, hashNew)
  }

  /** The corrected update: the book row takes the key of its new
      title (refused when another book holds that key), the links under the
      stored key are the ones deleted, and the new links carry the new key.
      The ledger statements are unchanged. */
  function UpdateRekeyed(s: State, e: UpdateEntry, hashOld: seq<Hash>, exclusiveNew: seq<Text>,
                         hashNew: seq<Hash>): (r: Result<State, Error>)
    requires Filled(e.book) && e.book.hash.Some?
    requires |exclusiveNew| == |hashNew|
    ensures e.book.id.None? || e.book.id.value !in s.books ==> r == Err(EditConflict)
    ensures r.Ok? ==> && e.book.id.Some? && e.book.id.value in s.books
                      && r.value.books == s.books[e.book.id.value := Rewritten(s.books[e.book.id.value], e.book)
                                                                   .(hash := e.book.hash.value)]
    ensures r.Ok? ==> && AuthorsOf(s.links, s.books[e.book.id.value].hash) != {}
                      && r.value.links == Unlink(s.links, s.books[e.book.id.value].hash)
                                          + LinkAll(e.book.hash.value, Elems(e.authors.hashes))
    ensures r.Ok? ==> && r.value.authors.Keys == s.authors.Keys + Elems(hashNew)
                      && (forall a :: a in r.value.authors
                            ==> r.value.authors[a].count
                                == CountOf(s.authors, a) + Ind(a in hashNew) - Ind(a in hashOld))
    ensures e.book.id.Some? && e.book.id.value in s.books
            && e.book.hash.value != s.books[e.book.id.value].hash
            && e.book.hash.value in BookHashes(s.books)
            ==> r == Err(StoreFailure(UniqueViolation))
  {
    if e.book.id.None? || e.book.id.value !in s.books then Err(EditConflict)
    else
      var id := e.book.id.value;
      var oldKey := s.books[id].hash;
      var newKey := e.book.hash.value;
      if newKey != oldKey && newKey in BookHashes(s.books) then Err(StoreFailure(UniqueViolation))
      else
        var books := s.books[id := Rewritten(s.books[id], e.book).(hash := newKey)];
        match UpsertStep(s.authors, s.nextAuthorId, exclusiveNew, hashNew)
        case Err(err) => Err(err)
        case Ok(up) =>
          match DecrementStep(up.0, hashOld)
          case Err(err) => Err(err)
          case Ok(authors) =>
            if AuthorsOf(s.links, oldKey) == {} then Err(StoreFailure(NoLinksDeleted))
            else
              Ok(State(books, authors, Unlink(s.links, oldKey) + LinkAll(newKey, Elems(e.authors.hashes)),
                       s.nextBookId, up.1))
  }

  // ------------------------------------------------------------------ lemmas

  /** While the title, and so the key, stays the same, the code as written
      and the rekeying update are the same transition. */
  lemma UpdateKeptKeyIsRekeyed(s: State, e: UpdateEntry, hashOld: seq<Hash>, exclusiveNew: seq<Text>,
                               hashNew: seq<Hash>)
    requires Filled(e.book) && |exclusiveNew| == |hashNew|
    requires e.book.id.Some? && e.book.id.value in s.books
    requires e.book.hash == Some(s.books[e.book.id.value].hash)
    ensures Update(s, e, hashOld, exclusiveNew, hashNew) == UpdateRekeyed(s, e, hashOld, exclusiveNew, hashNew)
  {
    var id := e.book.id.value;
    assert Rewritten(s.books[id], e.book).(hash := e.book.hash.value) == Rewritten(s.books[id], e.book);
  }

  /** The ledger arguments fit the book's links: `hashNew` lists the new
      author keys the book is not yet linked to, and `hashOld` the linked
      keys that are not among the new ones. */
  ghost predicate LedgerFits(s: State, oldKey: Hash, e: UpdateEntry, hashOld: seq<Hash>, hashNew: seq<Hash>) {
    && Elems(hashNew) == Elems(e.authors.hashes) - AuthorsOf(s.links, oldKey)
    && Elems(hashOld) == AuthorsOf(s.links, oldKey) - Elems(e.authors.hashes)
  }

  /** Given ledger arguments that fit the links, a successful rekeying update
      keeps the catalogue consistent: every author's count moves by exactly
      the link it gains or loses. */
  lemma UpdateRekeyedKeepsConsistency(s: State, e: UpdateEntry, hashOld: seq<Hash>,
                                      exclusiveNew: seq<Text>, hashNew: seq<Hash>)
    requires Filled(e.book) && e.book.hash.Some? && |exclusiveNew| == |hashNew|
    requires Consistent(s)
    requires e.book.id.Some? && e.book.id.value in s.books
    requires LedgerFits(s, s.books[e.book.id.value].hash, e, hashOld, hashNew)
    requires UpdateRekeyed(s, e, hashOld, exclusiveNew, hashNew).Ok?
    ensures Consistent(UpdateRekeyed(s, e, hashOld, exclusiveNew, hashNew).value)
  {
    var t := UpdateRekeyed(s, e, hashOld, exclusiveNew, hashNew).value;
    var id := e.book.id.value;
    var oh, nh := s.books[id].hash, e.book.hash.value;
    var n, l := Elems(e.authors.hashes), AuthorsOf(s.links, oh);
    assert l <= s.authors.Keys by {
      forall a | a in l ensures a in s.authors {
        assert (oh, a) in s.links;
      }
    }
    assert nh == oh || forall k :: k in s.links ==> k.0 != nh;
    forall a | a in t.authors
      ensures t.authors[a].count == CountOf(s.authors, a) + Ind(a in n) - Ind(a in l)
    {
      assert (a in hashNew) == (a in n - l) && (a in hashOld) == (a in l - n);
    }
    RelinkKeepsCounts(s, t, oh, nh, n);
    ReplaceBookKeepsKeys(s.books, id, Rewritten(s.books[id], e.book).(hash := nh));
    RelinkKeepsResolve(s, t, oh, nh, n);
    UpdateKeepsIds(s, e, exclusiveNew, hashNew, t);
  }

  /** The two ledger statements hand out fresh, distinct author ids and
      leave every other id alone. */
  lemma UpdateKeepsIds(s: State, e: UpdateEntry, exclusiveNew: seq<Text>, hashNew: seq<Hash>, t: State)
    requires |exclusiveNew| == |hashNew|
    requires AuthorIdsUnique(s.authors) && IdsFresh(s)
    requires UpsertStep(s.authors, s.nextAuthorId, exclusiveNew, hashNew).Ok?
    requires var up := UpsertStep(s.authors, s.nextAuthorId, exclusiveNew, hashNew).value;
             && t.books.Keys == s.books.Keys && t.nextBookId == s.nextBookId
             && t.nextAuthorId == up.1 && t.authors.Keys == up.0.Keys
             && (forall a :: a in t.authors ==> t.authors[a].id == up.0[a].id)
    ensures AuthorIdsUnique(t.authors) && IdsFresh(t)
  {
    if exclusiveNew != [] {
      UpsertKeepsIds(s.authors, s.nextAuthorId, exclusiveNew, hashNew);
    }
  }

  /** The code as written keeps the catalogue consistent while the title,
      and so the key, stays the same. */
  lemma UpdateKeptTitleKeepsConsistency(s: State, e: UpdateEntry, hashOld: seq<Hash>,
                                        exclusiveNew: seq<Text>, hashNew: seq<Hash>)
    requires Filled(e.book) && |exclusiveNew| == |hashNew|
    requires Consistent(s)
    requires e.book.id.Some? && e.book.id.value in s.books
    requires e.book.hash == Some(s.books[e.book.id.value].hash)
    requires LedgerFits(s, s.books[e.book.id.value].hash, e, hashOld, hashNew)
    requires Update(s, e, hashOld, exclusiveNew, hashNew).Ok?
    ensures Consistent(Update(s, e, hashOld, exclusiveNew, hashNew).value)
  {
    UpdateKeptKeyIsRekeyed(s, e, hashOld, exclusiveNew, hashNew);
    UpdateRekeyedKeepsConsistency(s, e, hashOld, exclusiveNew, hashNew);
  }

  /** As written, a new title whose key no book holds can never be saved:
      no link carries that key, so the link deletion finds nothing. */
  lemma UpdateRetitleFails(s: State, e: UpdateEntry, hashOld: seq<Hash>,
                           exclusiveNew: seq<Text>, hashNew: seq<Hash>)
    requires Filled(e.book) && |exclusiveNew| == |hashNew|
    requires LinksResolve(s)
    requires e.book.hash.Some? && e.book.hash.value !in BookHashes(s.books)
    ensures Update(s, e, hashOld, exclusiveNew, hashNew).Err?
  {
    assert AuthorsOf(s.links, e.book.hash.value) == {} by {
      assert forall l :: l in s.links ==> l.0 != e.book.hash.value;
    }
  }

  /** The rekeying update succeeds exactly when the id names a book, the new
      key is free (or the book's own), the new authors' keys are distinct, a
      non-empty `hashOld` meets some author, and the book had links. */
  lemma UpdateRekeyedSucceeds(s: State, e: UpdateEntry, hashOld: seq<Hash>,
                              exclusiveNew: seq<Text>, hashNew: seq<Hash>)
    requires Filled(e.book) && e.book.hash.Some? && |exclusiveNew| == |hashNew|
    requires e.book.id.Some? && e.book.id.value in s.books
    ensures var oh, nh := s.books[e.book.id.value].hash, e.book.hash.value;
            UpdateRekeyed(s, e, hashOld, exclusiveNew, hashNew).Ok?
            <==> && (nh == oh || nh !in BookHashes(s.books))
                 && NoDup(hashNew)
                 && (hashOld == [] || !(Elems(hashOld) !! (s.authors.Keys + Elems(hashNew))))
                 && AuthorsOf(s.links, oh) != {}
  {
  }

  /** After a successful rekeying update the book is found under its new
      key, linked to exactly the new authors, and nothing is left under a
      key it gave up. */
  lemma UpdateRekeyedMovesKey(s: State, e: UpdateEntry, hashOld: seq<Hash>,
                              exclusiveNew: seq<Text>, hashNew: seq<Hash>)
    requires Filled(e.book) && e.book.hash.Some? && |exclusiveNew| == |hashNew|
    requires LinksResolve(s)
    requires UpdateRekeyed(s, e, hashOld, exclusiveNew, hashNew).Ok?
    ensures var t := UpdateRekeyed(s, e, hashOld, exclusiveNew, hashNew).value;
            var id, oh, nh := e.book.id.value, s.books[e.book.id.value].hash, e.book.hash.value;
            && t.books[id].hash == nh
            && AuthorsOf(t.links, nh) == Elems(e.authors.hashes)
            && (nh != oh ==> AuthorsOf(t.links, oh) == {})
  {
    var t := UpdateRekeyed(s, e, hashOld, exclusiveNew, hashNew).value;
    var oh, nh := s.books[e.book.id.value].hash, e.book.hash.value;
    var n := Elems(e.authors.hashes);
    assert nh != oh ==> forall k :: k in s.links ==> k.0 != nh;
    forall a | a in AuthorsOf(t.links, nh) ensures a in n {
      assert (nh, a) in t.links;
    }
    forall a | a in n ensures a in AuthorsOf(t.links, nh) {
      assert (nh, a) in LinkAll(nh, n);
    }
    if nh != oh {
      assert forall k :: k in t.links ==> k.0 != oh;
    }
  }

  // ------------------------------------------------------------ counterexample

  /** Two one-author books, `X` by `A` and `Y` by `B`: a consistent store. */
  function TwoBooks(): State {
    var x, y, a, b := [1], [2], [3], [4];
    State(map[1 := BookRow(x, [88], [80], 2000, 10, [[71]], 1),
              2 := BookRow(y, [89], [80], 2000, 10, [[71]], 1)],
          map[a := AuthorRow(1, [65], 1), b := AuthorRow(2, [66], 1)],
          {(x, a), (y, b)}, 3, 3)
  }

  /** Book 1 retitled to book 2's title, with its author list unchanged. */
  function RetitleOntoY(): UpdateEntry {
    UpdateEntry(UpdateBook(Some(1), Some([2]), Some([89]), Some([80]), Some(2000), Some(10), Some([[71]])),
                UpdateAuthors(Some([[65]]), [[3]]))
  }

  lemma TwoBooksConsistent()
    ensures Consistent(TwoBooks())
  {
    var s := TwoBooks();
    var x, y, a, b: Hash := [1], [2], [3], [4];
    assert BooksOf(s.links, a) == {x};
    assert BooksOf(s.links, b) == {y};
    assert s.books[1].hash == x && s.books[2].hash == y;
    assert x in BookHashes(s.books) && y in BookHashes(s.books);
  }

  /** What the code as written does with `RetitleOntoY`: the links of `Y`
      are replaced by one to `A`, and no count moves. */
  lemma RetitleOntoYResult()
    ensures var r := Update(TwoBooks(), RetitleOntoY(), [], [], []);
            && r.Ok?
            && r.value.links == {([1], [3]), ([2], [3])}
            && r.value.authors == TwoBooks().authors
  {
    var s := TwoBooks();
    var x, y, a, b: Hash := [1], [2], [3], [4];
    assert (y, b) in s.links;
    assert b in AuthorsOf(s.links, y);
    assert 1 in s.books;
    assert Unlink(s.links, y) == {(x, a)};
    assert Elems([a]) == {a};
    assert LinkAll(y, {a}) == {(y, a)};
  }

  /** As written, retitling a book to another book's title is accepted and
      moves that other book's links over to this book's authors: `A` ends up
      linked to two books but still counted once, and `B` linked to none but
      counted once. The rekeying update refuses the same request. */
  lemma UpdateRetitleCorruptsLinks()
    ensures Consistent(TwoBooks())
    ensures Update(TwoBooks(), RetitleOntoY(), [], [], []).Ok?
    ensures !Consistent(Update(TwoBooks(), RetitleOntoY(), [], [], []).value)
    ensures UpdateRekeyed(TwoBooks(), RetitleOntoY(), [], [], []) == Err(StoreFailure(UniqueViolation))
  {
    TwoBooksConsistent();
    RetitleOntoYResult();
    var s := TwoBooks();
    var x, y, a: Hash := [1], [2], [3];
    var t := Update(s, RetitleOntoY(), [], [], []).value;
    assert BooksOf(t.links, a) == {x, y};
    assert t.authors[a].count == 1;
    assert s.books[2].hash == y;
    assert y in BookHashes(s.books);
  }
}
