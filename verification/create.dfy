/** Creating a catalogue entry: the entry's content keys, its validation,
    and `Insert`, the three statements that add the book row, upsert its
    authors and link them, as one transition of the store. */
module Create {
  import opened Base
  import opened Validation
  import opened Store

  /** `books.Book`. `id` is not used on this path; `hash` is filled in by
      `HashEntries`. A nil `genres` slice is `None`. */
  datatype Book = Book(id: int, hash: Hash, title: Text, publisher: Text, year: int, pages: int,
                       genres: Option<seq<Text>>)

  /** `books.Authors`: the names and, once hashed, their keys. */
  datatype Authors = Authors(list: Option<seq<Text>>, hash: seq<Hash>)

  datatype CreateBookEntry = CreateBookEntry(book: Book, authors: Authors)

  /** `HashEntries`: the book's key is `H` of its title and the i-th author
      key is `H` of the i-th name; nothing else changes. */
  function HashEntries(e: CreateBookEntry, H: Text -> Text): (r: CreateBookEntry)
    ensures r.book == e.book.(hash := H(e.book.title))
    ensures r.authors.list == e.authors.list
    ensures |r.authors.hash| == |e.authors.list.GetOr([])|
    ensures forall i :: 0 <= i < |r.authors.hash| ==> r.authors.hash[i] == H(e.authors.list.value[i])
  {
    CreateBookEntry(e.book.(hash := H(e.book.title)),
                    e.authors.(hash := MapSeq(H, e.authors.list.GetOr([]))))
  }

  /** The author keys `HashEntries` yields are the image of the names, and
      are distinct when the names are and `H` tells them apart. */
  lemma HashEntriesKeys(e: CreateBookEntry, H: Text -> Text)
    ensures Elems(HashEntries(e, H).authors.hash) == Image(H, Elems(e.authors.list.GetOr([])))
    ensures NoDup(e.authors.list.GetOr([])) && InjectiveOn(H, Elems(e.authors.list.GetOr([])))
            ==> NoDup(HashEntries(e, H).authors.hash)
  {
    var names := e.authors.list.GetOr([]);
    ElemsOfMap(H, names);
    if NoDup(names) && InjectiveOn(H, Elems(names)) {
      NoDupMap(H, names);
    }
  }

  /** `CreateBookEntry.ValidateEntry`, with the current year passed in. */
  function ValidateEntry(e: CreateBookEntry, v: Log, currentYear: int): (r: (bool, Log))
    ensures r.0 <==> && Valid(v)
                     && BookFieldsOk(e.book.title, e.book.publisher, e.book.year, e.book.pages,
                                     e.book.genres, currentYear)
                     && AuthorsOk(e.authors.list)
    ensures !BookFieldsOk(e.book.title, e.book.publisher, e.book.year, e.book.pages,
                          e.book.genres, currentYear)
            ==> BookKeysOnly(r.1, |v|)
  {
    ValidateFields(v, e.book.title, e.book.publisher, e.book.year, e.book.pages, e.book.genres,
                   e.authors.list, currentYear)
  }

  /** The row the first statement inserts. */
  function NewRow(b: Book): BookRow {
    BookRow(b.hash, b.title, b.publisher, b.year, b.pages, b.genres.GetOr([]), InitialVersion)
  }

  /** `CreateEntryModel.Insert`: insert the book row (its key and its id are
      unique), upsert the authors over the (name, key) pairs, and link the
      book to every author key, leaving existing links alone. The two lists
      of the upsert are unnested side by side, so the source's callers give
      them equal length. */
  function Insert(s: State, e: CreateBookEntry): (r: Result<State, Error>)
    requires |e.authors.list.GetOr([])| == |e.authors.hash|
    ensures r.Err? <==> || e.book.hash in BookHashes(s.books) || s.nextBookId in s.books
                        || !NoDup(e.authors.hash)
    ensures r.Err? ==> r.error.StoreFailure?
    ensures r.Ok? ==> && r.value.books == s.books[s.nextBookId := NewRow(e.book)]
                      && r.value.nextBookId == s.nextBookId + 1
    ensures r.Ok? ==> r.value.links == s.links + LinkAll(e.book.hash, Elems(e.authors.hash))
    ensures r.Ok? ==> && r.value.authors.Keys == s.authors.Keys + Elems(e.authors.hash)
                      && (forall a :: a in r.value.authors
                            ==> r.value.authors[a].count == CountOf(s.authors, a) + Ind(a in e.authors.hash))
                      && (forall a :: a in s.authors && a !in e.authors.hash
                            ==> r.value.authors[a] == s.authors[a])
  {
    if e.book.hash in BookHashes(s.books) || s.nextBookId in s.books then
      Err(StoreFailure(UniqueViolation))
    else
      var books := s.books[s.nextBookId := NewRow(e.book)];
      match Upsert(s.authors, s.nextAuthorId, e.authors.list.GetOr([]), e.authors.hash)
      case Err(err) => Err(err)
      case Ok(up) =>
        Ok(State(books, up.0, s.links + LinkAll(e.book.hash, Elems(e.authors.hash)),
                 s.nextBookId + 1, up.1))
  }

  /** A successful insert keeps the catalogue consistent: the new key has no
      links yet, so each listed author gains exactly the one link its count
      went up by. */
  lemma InsertPreservesConsistency(s: State, e: CreateBookEntry)
    requires |e.authors.list.GetOr([])| == |e.authors.hash|
    requires Consistent(s)
    requires Insert(s, e).Ok?
    ensures Consistent(Insert(s, e).value)
  {
    var t := Insert(s, e).value;
    var bh := e.book.hash;
    var hs := Elems(e.authors.hash);
    assert AuthorsOf(s.links, bh) == {} by {
      assert forall l :: l in s.links ==> l.0 != bh;
    }
    assert Unlink(s.links, bh) == s.links;
    RelinkKeepsCounts(s, t, bh, bh, hs);
    AddBookKeepsKeys(s.books, s.nextBookId, NewRow(e.book));
    RelinkKeepsResolve(s, t, bh, bh, hs);
    UpsertKeepsIds(s.authors, s.nextAuthorId, e.authors.list.GetOr([]), e.authors.hash);
  }

  /** Inserting a book whose content key is already taken fails and leaves
      no trace; a repeated author key fails the same way. */
  lemma InsertRejectsTakenKeys(s: State, e: CreateBookEntry)
    requires |e.authors.list.GetOr([])| == |e.authors.hash|
    requires e.book.hash in BookHashes(s.books) || !NoDup(e.authors.hash)
    ensures Insert(s, e).Err?
  {
  }
}
