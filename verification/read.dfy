/** Reading catalogue entries: the two queries over the store and the two
    `Convert` loops that turn their parallel arrays into records.

    Both queries aggregate with `array_agg` and no ordering, so the order of
    the arrays is not specified; the model lists the rows in some order
    (`Enumerate`) and states only what holds for every order. */
module Read {
  import opened Base
  import opened Store
  import Create

  /** `books.ReadBook`. */
  datatype ReadBook = ReadBook(id: int, hash: Hash, title: Text, publisher: Text, year: int,
                               pages: int, genres: seq<Text>, version: int)

  /** `books.ReadAuthor`. */
  datatype ReadAuthor = ReadAuthor(id: int, name: Text, identifier: Hash, count: int)

  /** `books.ReadAuthorList`: the four aggregated author columns. */
  datatype AuthorList = AuthorList(ids: seq<int>, names: seq<Text>, identifiers: seq<Hash>,
                                   counts: seq<int>)

  /** `books.ReadEntry`. */
  datatype ReadEntry = ReadEntry(book: ReadBook, authors: seq<ReadAuthor>, list: AuthorList)

  /** `books.ReadBookList`: the six aggregated book columns. */
  datatype BookList = BookList(ids: seq<int>, hashes: seq<Hash>, titles: seq<Text>,
                               publishers: seq<Text>, years: seq<int>, pages: seq<int>)

  /** `books.ReadAuthorEntry`. */
  datatype ReadAuthorEntry = ReadAuthorEntry(bookList: BookList, author: ReadAuthor,
                                             bookDisplay: seq<ReadBook>)

  /** The Go zero values the handlers fill freshly made slices with. */
  const ZeroAuthor := ReadAuthor(0, [], [], 0)
  const ZeroBook := ReadBook(0, [], [], [], 0, 0, [], 0)

  // ------------------------------------------------------- ReadEntry.Convert

  /** The author columns are at least as long as the names. */
  predicate AuthorColumnsFit(l: AuthorList) {
    |l.ids| >= |l.names| && |l.identifiers| >= |l.names| && |l.counts| >= |l.names|
  }

  /** Every array `Convert` indexes is long enough for its loop. */
  predicate AuthorsFit(l: AuthorList, authors: seq<ReadAuthor>) {
    AuthorColumnsFit(l) && |authors| >= |l.names|
  }

  /** The record at index `i` of the author columns. */
  function AuthorAt(l: AuthorList, i: int): ReadAuthor
    requires AuthorColumnsFit(l) && 0 <= i < |l.names|
  {
    ReadAuthor(l.ids[i], l.names[i], l.identifiers[i], l.counts[i])
  }

  /** The loop of `ReadEntry.Convert` from `index` on. */
  function ConvertAuthorsFrom(l: AuthorList, authors: seq<ReadAuthor>, index: nat): (r: seq<ReadAuthor>)
    requires AuthorsFit(l, authors) && index <= |l.names|
    ensures |r| == |authors|
    ensures forall i :: index <= i < |l.names| ==> r[i] == AuthorAt(l, i)
    ensures forall i :: 0 <= i < |authors| && !(index <= i < |l.names|) ==> r[i] == authors[i]
    decreases |l.names| - index
  {
    if index == |l.names| then authors
    else ConvertAuthorsFrom(l, authors[index := AuthorAt(l, index)], index + 1)
  }

  /** `ReadEntry.Convert`: the i-th record is built from the i-th element of
      each column, for every index of the names; later records are left as
      they were. */
  function Convert(e: ReadEntry): (r: ReadEntry)
    requires AuthorsFit(e.list, e.authors)
    ensures r.book == e.book && r.list == e.list
    ensures |r.authors| == |e.authors|
    ensures forall i :: 0 <= i < |e.list.names| ==> r.authors[i] == AuthorAt(e.list, i)
    ensures forall i :: |e.list.names| <= i < |e.authors| ==> r.authors[i] == e.authors[i]
  {
    e.(authors := ConvertAuthorsFrom(e.list, e.authors, 0))
  }

  // ------------------------------------------------- ReadAuthorEntry.Convert

  /** The book columns are at least as long as the titles. */
  predicate BookColumnsFit(l: BookList) {
    && |l.ids| >= |l.titles| && |l.hashes| >= |l.titles| && |l.publishers| >= |l.titles|
    && |l.years| >= |l.titles| && |l.pages| >= |l.titles|
  }

  /** Every array the book `Convert` indexes is long enough for its loop. */
  predicate BooksFit(l: BookList, display: seq<ReadBook>) {
    BookColumnsFit(l) && |display| >= |l.titles|
  }

  /** The record at index `i` of the book columns: no genres, version 0. */
  function BookAt(l: BookList, i: int): ReadBook
    requires BookColumnsFit(l) && 0 <= i < |l.titles|
  {
    ReadBook(l.ids[i], l.hashes[i], l.titles[i], l.publishers[i], l.years[i], l.pages[i], [], 0)
  }

  /** The loop of `ReadAuthorEntry.Convert` from `index` on. */
  function ConvertBooksFrom(l: BookList, display: seq<ReadBook>, index: nat): (r: seq<ReadBook>)
    requires BooksFit(l, display) && index <= |l.titles|
    ensures |r| == |display|
    ensures forall i :: index <= i < |l.titles| ==> r[i] == BookAt(l, i)
    ensures forall i :: 0 <= i < |display| && !(index <= i < |l.titles|) ==> r[i] == display[i]
    decreases |l.titles| - index
  {
    if index == |l.titles| then display
    else ConvertBooksFrom(l, display[index := BookAt(l, index)], index + 1)
  }

  /** `ReadAuthorEntry.Convert`: the i-th book record from the i-th element
      of each book column, for every index of the titles. */
  function ConvertBooks(e: ReadAuthorEntry): (r: ReadAuthorEntry)
    requires BooksFit(e.bookList, e.bookDisplay)
    ensures r.author == e.author && r.bookList == e.bookList
    ensures |r.bookDisplay| == |e.bookDisplay|
    ensures forall i :: 0 <= i < |e.bookList.titles| ==> r.bookDisplay[i] == BookAt(e.bookList, i)
    ensures forall i :: |e.bookList.titles| <= i < |e.bookDisplay| ==> r.bookDisplay[i] == e.bookDisplay[i]
  {
    e.(bookDisplay := ConvertBooksFrom(e.bookList, e.bookDisplay, 0))
  }

  // ---------------------------------------------------------------------- Get

  /** The authors the inner joins find for a book key: linked, with a row. */
  function Joined(s: State, key: Hash): set<Hash> {
    AuthorsOf(s.links, key) * s.authors.Keys
  }

  /** The four author columns for the author rows under `keys`, in order. */
  function AuthorColumns(authors: map<Hash, AuthorRow>, keys: seq<Hash>): (r: AuthorList)
    requires forall i :: 0 <= i < |keys| ==> keys[i] in authors
    ensures |r.ids| == |r.names| == |r.identifiers| == |r.counts| == |keys|
    ensures r.identifiers == keys
    ensures forall i :: 0 <= i < |keys| ==> (&& r.ids[i] == authors[keys[i]].id
                                           && r.names[i] == authors[keys[i]].name
                                           && r.counts[i] == authors[keys[i]].count)
  {
    AuthorList(seq(|keys|, i requires 0 <= i < |keys| => authors[keys[i]].id),
               seq(|keys|, i requires 0 <= i < |keys| => authors[keys[i]].name),
               keys,
               seq(|keys|, i requires 0 <= i < |keys| => authors[keys[i]].count))
  }

  /** `ReadEntryModel.Get` for book `id`: the stored key and fields of the
      book, and one column entry per joined author, each author once. The
      version is not read. No book, or a book without joined authors, gives
      no row. */
  ghost function Get(s: State, id: int): (r: Result<ReadEntry, Error>)
    ensures r.Err? <==> id !in s.books || Joined(s, s.books[id].hash) == {}
    ensures r.Err? ==> r.error == NotFound
    ensures r.Ok? ==> var row := s.books[id];
                      && r.value.book == ReadBook(id, row.hash, row.title, row.publisher, row.year,
                                                  row.pages, row.genres, 0)
                      && r.value.authors == []
                      && NoDup(r.value.list.identifiers)
                      && Elems(r.value.list.identifiers) == Joined(s, row.hash)
                      && (forall i :: 0 <= i < |r.value.list.identifiers|
                            ==> r.value.list.identifiers[i] in s.authors)
                      && r.value.list == AuthorColumns(s.authors, r.value.list.identifiers)
  {
    if id !in s.books then Err(NotFound)
    else
      var row := s.books[id];
      var joined := Joined(s, row.hash);
      if joined == {} then Err(NotFound)
      else
        var keys := Enumerate(joined);
        assert forall i :: 0 <= i < |keys| ==> keys[i] in Elems(keys);
        Ok(ReadEntry(ReadBook(id, row.hash, row.title, row.publisher, row.year, row.pages, row.genres, 0),
                     [], AuthorColumns(s.authors, keys)))
  }

  /** The fetch handler's read: `Get`, then a zeroed record per name, then
      `Convert`. */
  ghost function FetchEntry(s: State, id: int): (r: Result<ReadEntry, Error>)
    ensures r.Err? <==> Get(s, id).Err?
  {
    match Get(s, id)
    case Err(err) => Err(err)
    case Ok(e) => Ok(Convert(e.(authors := seq(|e.list.names|, _ => ZeroAuthor))))
  }

  /** A fetched entry lists each author linked to the book exactly once,
      each as its stored row: id, name, key and count. */
  lemma FetchEntryDescribesAuthors(s: State, id: int)
    requires FetchEntry(s, id).Ok?
    ensures var r := FetchEntry(s, id).value;
            && id in s.books
            && |r.authors| == |Joined(s, s.books[id].hash)|
            && (forall i :: 0 <= i < |r.authors| ==>
                  var k := r.authors[i].identifier;
                  k in Joined(s, s.books[id].hash)
                  && r.authors[i] == ReadAuthor(s.authors[k].id, s.authors[k].name, k, s.authors[k].count))
            && (forall k :: k in Joined(s, s.books[id].hash)
                  ==> exists i :: 0 <= i < |r.authors| && r.authors[i].identifier == k)
            && (forall i, j :: 0 <= i < j < |r.authors| ==> r.authors[i].identifier != r.authors[j].identifier)
  {
    var e := Get(s, id).value;
    var r := FetchEntry(s, id).value;
    var keys := e.list.identifiers;
    DistinctCard(keys);
    forall k | k in Joined(s, s.books[id].hash)
      ensures exists i :: 0 <= i < |r.authors| && r.authors[i].identifier == k
    {
      var i :| 0 <= i < |keys| && keys[i] == k;
      assert r.authors[i].identifier == k;
    }
  }

  /** Inserting a book and reading it back gives its fields, and the authors
      it was linked to. */
  lemma InsertThenGet(s: State, e: Create.CreateBookEntry)
    requires |e.authors.list.GetOr([])| == |e.authors.hash|
    requires Consistent(s)
    requires Create.Insert(s, e).Ok?
    requires e.authors.hash != []
    ensures var t := Create.Insert(s, e).value;
            var r := Get(t, s.nextBookId);
            && r.Ok?
            && r.value.book == ReadBook(s.nextBookId, e.book.hash, e.book.title, e.book.publisher,
                                        e.book.year, e.book.pages, e.book.genres.GetOr([]), 0)
            && Elems(r.value.list.identifiers) == Elems(e.authors.hash)
  {
    var t := Create.Insert(s, e).value;
    var bh := e.book.hash;
    assert forall l :: l in s.links ==> l.0 != bh;
    assert Joined(t, bh) == Elems(e.authors.hash) by {
      forall a | a in Elems(e.authors.hash) ensures a in Joined(t, bh) {
        assert (bh, a) in t.links;
      }
      forall a | a in Joined(t, bh) ensures a in Elems(e.authors.hash) {
        assert (bh, a) in t.links;
      }
    }
    assert e.authors.hash[0] in Joined(t, bh);
  }

  // ---------------------------------------------------------------- AuthorGet

  /** The ids of the books linked to author `a` that have a row. */
  function BooksLinkedTo(s: State, a: Hash): set<int> {
    set id | id in s.books && s.books[id].hash in BooksOf(s.links, a)
  }

  /** The six book columns for the book rows under `ids`, in order. */
  function BookColumns(books: map<int, BookRow>, ids: seq<int>): (r: BookList)
    requires forall i :: 0 <= i < |ids| ==> ids[i] in books
    ensures r.ids == ids
    ensures |r.hashes| == |r.titles| == |r.publishers| == |r.years| == |r.pages| == |ids|
    ensures forall i :: 0 <= i < |ids| ==> var b := books[ids[i]];
              && r.hashes[i] == b.hash && r.titles[i] == b.title && r.publishers[i] == b.publisher
              && r.years[i] == b.year && r.pages[i] == b.pages
  {
    BookList(ids,
             seq(|ids|, i requires 0 <= i < |ids| => books[ids[i]].hash),
             seq(|ids|, i requires 0 <= i < |ids| => books[ids[i]].title),
             seq(|ids|, i requires 0 <= i < |ids| => books[ids[i]].publisher),
             seq(|ids|, i requires 0 <= i < |ids| => books[ids[i]].year),
             seq(|ids|, i requires 0 <= i < |ids| => books[ids[i]].pages))
  }

  /** `ReadEntryModel.AuthorGet` for author id `authorId`: the author's key,
      name and count, and one column entry per linked book, each book once.
      No such author, or an author without linked books, gives no row. */
  ghost function AuthorGet(s: State, authorId: int): (r: Result<ReadAuthorEntry, Error>)
    ensures r.Err? <==> forall a :: a in s.authors && s.authors[a].id == authorId
                                    ==> BooksLinkedTo(s, a) == {}
    ensures r.Err? ==> r.error == NotFound
    ensures r.Ok? ==> var a := r.value.author.identifier;
                      && a in s.authors && s.authors[a].id == authorId
                      && r.value.author == ReadAuthor(authorId, s.authors[a].name, a, s.authors[a].count)
                      && r.value.bookDisplay == []
                      && NoDup(r.value.bookList.ids)
                      && Elems(r.value.bookList.ids) == BooksLinkedTo(s, a)
                      && (forall i :: 0 <= i < |r.value.bookList.ids| ==> r.value.bookList.ids[i] in s.books)
                      && r.value.bookList == BookColumns(s.books, r.value.bookList.ids)
  {
    if forall a :: a in s.authors && s.authors[a].id == authorId ==> BooksLinkedTo(s, a) == {} then
      Err(NotFound)
    else
      var a :| a in s.authors && s.authors[a].id == authorId && BooksLinkedTo(s, a) != {};
      var ids := Enumerate(BooksLinkedTo(s, a));
      assert forall i :: 0 <= i < |ids| ==> ids[i] in Elems(ids);
      Ok(ReadAuthorEntry(BookColumns(s.books, ids),
                         ReadAuthor(authorId, s.authors[a].name, a, s.authors[a].count), []))
  }

  /** With unique author ids the author read is the one author holding the
      id, and under a consistent ledger its count is the number of books
      listed for it. */
  lemma AuthorGetFindsTheAuthor(s: State, authorId: int, a: Hash)
    requires Consistent(s)
    requires a in s.authors && s.authors[a].id == authorId
    requires AuthorGet(s, authorId).Ok?
    ensures AuthorGet(s, authorId).value.author.identifier == a
    ensures AuthorGet(s, authorId).value.author.count == |AuthorGet(s, authorId).value.bookList.ids|
  {
    var r := AuthorGet(s, authorId).value;
    var ids := r.bookList.ids;
    DistinctCard(ids);
    BooksLinkedToCount(s, a);
  }

  /** With unique book keys and resolving links, an author has as many
      linked book rows as linked book keys. */
  lemma BooksLinkedToCount(s: State, a: Hash)
    requires LinksResolve(s) && HashesUnique(s.books)
    ensures |BooksLinkedTo(s, a)| == |BooksOf(s.links, a)|
  {
    var ids := BooksLinkedTo(s, a);
    var keys := BooksOf(s.links, a);
    assert keys == set id | id in ids :: s.books[id].hash by {
      forall k | k in keys ensures exists id :: id in ids && s.books[id].hash == k {
        assert (k, a) in s.links;
        assert k in BookHashes(s.books);
        var id :| id in s.books && s.books[id].hash == k;
        assert id in ids;
      }
    }
    InjectiveCard(s.books, ids);
  }

  /** Mapping a set of ids to their unique keys keeps its size. */
  lemma InjectiveCard(books: map<int, BookRow>, ids: set<int>)
    requires ids <= books.Keys && HashesUnique(books)
    ensures |set id | id in ids :: books[id].hash| == |ids|
  {
    var key := (id: int) => if id in books then books[id].hash else [];
    assert InjectiveOn(key, ids);
    InjectiveImageCard(key, ids);
    forall id | id in ids ensures books[id].hash in Image(key, ids) {
      assert key(id) == books[id].hash;
    }
    forall k | k in Image(key, ids) ensures k in set id | id in ids :: books[id].hash {
      var id := Preimage(key, ids, k);
      assert books[id].hash == k;
    }
    assert Image(key, ids) == set id | id in ids :: books[id].hash;
  }
}
