/** The abstract catalogue store the three mutations act on, the reference
    count ledger's statements, and the invariant that ties each author's
    `books_authored` to the links that carry its key.

    Tables (as the statements use them): `books` keyed by the numeric id,
    with a unique content key `book_id`; `authors` keyed by the unique
    content key `author_id`, with a numeric id; `book_author_link` holding
    (book key, author key) pairs, unique as a pair. */
module Store {
  import opened Base

  /** A content key (the hex SHA-1 of a title or a name). */
  type Hash = Text

  /** A `book_author_link` row: (book key, author key). */
  type Link = (Hash, Hash)

  /** The `version` a freshly inserted book starts with (the column default). */
  const InitialVersion := 1

  datatype BookRow = BookRow(hash: Hash, title: Text, publisher: Text, year: int, pages: int,
                             genres: seq<Text>, version: int)

  datatype AuthorRow = AuthorRow(id: int, name: Text, count: int)

  /** The three tables and the two id sequences. */
  datatype State = State(books: map<int, BookRow>, authors: map<Hash, AuthorRow>,
                         links: set<Link>, nextBookId: int, nextAuthorId: int)

  /** Store failures other than "no row": a unique key clash, an upsert that
      would touch one row twice, the update's "no link deleted" error, and a
      returned value the driver cannot decode into the Go variable. */
  datatype Cause = UniqueViolation | RowAffectedTwice | NoLinksDeleted | ScanFailed

  /** `ErrNotFound`, `ErrEditConflict`, and every other error. */
  datatype Error = NotFound | EditConflict | StoreFailure(cause: Cause)

  // --------------------------------------------------------------- link views

  /** The content keys of all books. */
  function BookHashes(books: map<int, BookRow>): set<Hash> {
    set id | id in books :: books[id].hash
  }

  /** The keys of the books linked to author `a`. */
  function BooksOf(links: set<Link>, a: Hash): set<Hash> {
    set l | l in links && l.1 == a :: l.0
  }

  /** The keys of the authors linked to book `b`. */
  function AuthorsOf(links: set<Link>, b: Hash): set<Hash> {
    set l | l in links && l.0 == b :: l.1
  }

  /** `DELETE FROM book_author_link WHERE book_id = b`. */
  function Unlink(links: set<Link>, b: Hash): set<Link> {
    set l | l in links && l.0 != b
  }

  /** One link from book `b` to each author in `hs`. */
  function LinkAll(b: Hash, hs: set<Hash>): set<Link> {
    set h | h in hs :: (b, h)
  }

  /** An author's count, or 0 for an author with no row yet. */
  function CountOf(authors: map<Hash, AuthorRow>, a: Hash): int {
    if a in authors then authors[a].count else 0
  }

  // ---------------------------------------------------------------- invariant

  /** Every author's `books_authored` is the number of books linked to it. */
  predicate CountsMatch(s: State) {
    forall a :: a in s.authors ==> s.authors[a].count == |BooksOf(s.links, a)|
  }

  /** Every link names an existing book and an existing author. */
  predicate LinksResolve(s: State) {
    forall l :: l in s.links ==> l.0 in BookHashes(s.books) && l.1 in s.authors
  }

  /** `book_id` is unique. */
  predicate HashesUnique(books: map<int, BookRow>) {
    forall i, j :: i in books && j in books && books[i].hash == books[j].hash ==> i == j
  }

  /** The numeric author ids are unique. */
  predicate AuthorIdsUnique(authors: map<Hash, AuthorRow>) {
    forall a, b :: a in authors && b in authors && authors[a].id == authors[b].id ==> a == b
  }

  /** The sequences are ahead of every id handed out. */
  predicate IdsFresh(s: State) {
    && (forall id :: id in s.books ==> id < s.nextBookId)
    && (forall a :: a in s.authors ==> s.authors[a].id < s.nextAuthorId)
  }

  /** The catalogue's bookkeeping invariant. */
  predicate Consistent(s: State) {
    && CountsMatch(s)
    && LinksResolve(s)
    && HashesUnique(s.books)
    && AuthorIdsUnique(s.authors)
    && IdsFresh(s)
  }

  // ----------------------------------------------------------- ledger steps

  /** The author upsert of `Insert` and `Update`, one row after another: a
      key with no row gets a row with the next id, the given name and count
      1; a key with a row gets its count raised by 1 and keeps its name. The
      id sequence is drawn for every row, conflicting or not, as a serial
      default is evaluated before the conflict is found. */
  function UpsertAll(authors: map<Hash, AuthorRow>, nextId: int, names: seq<Text>,
                     hashes: seq<Hash>): (r: (map<Hash, AuthorRow>, int))
    requires |names| == |hashes|
    requires NoDup(hashes)
    ensures Upserted(authors, nextId, names, hashes, r)
    decreases |hashes|
  {
    if hashes == [] then (authors, nextId)
    else
      var h := hashes[0];
      var row := if h in authors then authors[h].(count := authors[h].count + 1)
                 else AuthorRow(nextId, names[0], 1);
      TailFacts(names, hashes);
      var rest := UpsertAll(authors[h := row], nextId + 1, names[1..], hashes[1..]);
      UpsertAllStep(authors, nextId, names, hashes, row, rest);
      rest
  }

  /** What `UpsertAll` promises for one upsert of `hashes` into `authors`
      that leaves `r`. */
  predicate Upserted(authors: map<Hash, AuthorRow>, nextId: int, names: seq<Text>, hashes: seq<Hash>,
                     r: (map<Hash, AuthorRow>, int))
    requires |names| == |hashes|
  {
    && r.0.Keys == authors.Keys + Elems(hashes)
    && (forall a :: a in r.0 ==> r.0[a].count == CountOf(authors, a) + Ind(a in hashes))
    && (forall a :: a in authors ==> r.0[a].id == authors[a].id && r.0[a].name == authors[a].name)
    && (forall a :: a in authors && a !in hashes ==> r.0[a] == authors[a])
    && (forall i :: 0 <= i < |hashes| && hashes[i] !in authors
                    ==> r.0[hashes[i]] == AuthorRow(nextId + i, names[i], 1))
    && r.1 == nextId + |hashes|
  }

  /** Upserting the first key and then the rest is upserting them all. */
  lemma UpsertAllStep(authors: map<Hash, AuthorRow>, nextId: int, names: seq<Text>, hashes: seq<Hash>,
                      row: AuthorRow, rest: (map<Hash, AuthorRow>, int))
    requires |names| == |hashes| && hashes != [] && NoDup(hashes)
    requires row == if hashes[0] in authors then authors[hashes[0]].(count := authors[hashes[0]].count + 1)
                    else AuthorRow(nextId, names[0], 1)
    requires Upserted(authors[hashes[0] := row], nextId + 1, names[1..], hashes[1..], rest)
    ensures Upserted(authors, nextId, names, hashes, rest)
  {
    TailFacts(names, hashes);
  }

  /** What the upsert's recursion needs about the tail of its lists. */
  lemma TailFacts(names: seq<Text>, hashes: seq<Hash>)
    requires |names| == |hashes| && hashes != [] && NoDup(hashes)
    ensures forall i :: 1 <= i < |hashes| ==> hashes[1..][i - 1] == hashes[i] && names[1..][i - 1] == names[i]
    ensures hashes[0] !in hashes[1..] && NoDup(hashes[1..])
    ensures forall a :: a in hashes <==> a == hashes[0] || a in hashes[1..]
  {
    forall i | 0 <= i < |hashes[1..]| ensures hashes[1..][i] != hashes[0] {
      assert hashes[1..][i] == hashes[i + 1];
    }
    assert hashes == [hashes[0]] + hashes[1..];
  }

  /** The upsert statement: it refuses a key that occurs twice, since one
      statement may not update the same row twice. */
  function Upsert(authors: map<Hash, AuthorRow>, nextId: int, names: seq<Text>,
                  hashes: seq<Hash>): (r: Result<(map<Hash, AuthorRow>, int), Error>)
    requires |names| == |hashes|
    ensures r.Err? <==> !NoDup(hashes)
    ensures r.Err? ==> r.error == StoreFailure(RowAffectedTwice)
  {
    if !NoDup(hashes) then Err(StoreFailure(RowAffectedTwice))
    else Ok(UpsertAll(authors, nextId, names, hashes))
  }

  /** `UPDATE authors SET books_authored = books_authored - 1` on every row
      whose key is in `hs`. */
  function DecrementAll(authors: map<Hash, AuthorRow>, hs: set<Hash>): (r: map<Hash, AuthorRow>)
    ensures r.Keys == authors.Keys
    ensures forall a :: a in r ==> r[a].count == authors[a].count - Ind(a in hs)
    ensures forall a :: a in r ==> r[a].id == authors[a].id && r[a].name == authors[a].name
  {
    map a | a in authors :: if a in hs then authors[a].(count := authors[a].count - 1) else authors[a]
  }

  /** The new authors an upsert leaves get fresh, distinct ids, so the id
      invariants carry over. */
  lemma UpsertKeepsIds(authors: map<Hash, AuthorRow>, nextId: int, names: seq<Text>, hashes: seq<Hash>)
    requires |names| == |hashes| && NoDup(hashes)
    requires AuthorIdsUnique(authors)
    requires forall a :: a in authors ==> authors[a].id < nextId
    ensures var r := UpsertAll(authors, nextId, names, hashes);
            && AuthorIdsUnique(r.0)
            && (forall a :: a in r.0 ==> r.0[a].id < r.1)
  {
    var r := UpsertAll(authors, nextId, names, hashes);
    forall a | a in r.0 && a !in authors
      ensures exists i :: 0 <= i < |hashes| && hashes[i] == a && r.0[a].id == nextId + i
    {
      var i :| 0 <= i < |hashes| && hashes[i] == a;
    }
    forall a, b | a in r.0 && b in r.0 && r.0[a].id == r.0[b].id ensures a == b {
      if a !in authors && b !in authors {
        var i :| 0 <= i < |hashes| && hashes[i] == a && r.0[a].id == nextId + i;
        var j :| 0 <= j < |hashes| && hashes[j] == b && r.0[b].id == nextId + j;
      }
    }
  }

  /** Adding a book row under a fresh id and a fresh key keeps keys unique
      and adds exactly that key. */
  lemma AddBookKeepsKeys(books: map<int, BookRow>, id: int, row: BookRow)
    requires HashesUnique(books)
    requires id !in books && row.hash !in BookHashes(books)
    ensures HashesUnique(books[id := row])
    ensures BookHashes(books[id := row]) == BookHashes(books) + {row.hash}
  {
    var t := books[id := row];
    forall i | i in books ensures books[i].hash in BookHashes(books) && t[i] == books[i] {
    }
    forall h | h in BookHashes(books) ensures h in BookHashes(t) {
      var j :| j in books && books[j].hash == h;
      assert t[j] == books[j];
    }
    assert t[id].hash == row.hash;
  }

  /** Rewriting the row under an existing id keeps keys unique when the new
      key is the row's own or no book's, and swaps the one key. */
  lemma ReplaceBookKeepsKeys(books: map<int, BookRow>, id: int, row: BookRow)
    requires HashesUnique(books)
    requires id in books
    requires row.hash == books[id].hash || row.hash !in BookHashes(books)
    ensures HashesUnique(books[id := row])
    ensures BookHashes(books[id := row]) == (BookHashes(books) - {books[id].hash}) + {row.hash}
  {
    var t := books[id := row];
    forall i | i in books ensures books[i].hash in BookHashes(books) {
    }
    forall i | i in books && i != id ensures t[i] == books[i] && books[i].hash != books[id].hash {
    }
    forall h | h in BookHashes(books) - {books[id].hash} ensures h in BookHashes(t) {
      var j :| j in books && books[j].hash == h;
      assert t[j] == books[j];
    }
    assert t[id].hash == row.hash;
  }

  /** Removing a book row removes exactly its key, keys being unique. */
  lemma RemoveBookKeys(books: map<int, BookRow>, id: int)
    requires HashesUnique(books)
    requires id in books
    ensures HashesUnique(books - {id})
    ensures BookHashes(books - {id}) == BookHashes(books) - {books[id].hash}
  {
    var t := books - {id};
    forall i | i in books && i != id ensures t[i] == books[i] && books[i].hash != books[id].hash {
    }
    forall h | h in BookHashes(books) - {books[id].hash} ensures h in BookHashes(t) {
      var j :| j in books && books[j].hash == h;
      assert t[j] == books[j];
    }
  }

  // ------------------------------------------------------------ relinking

  /** Relinking book `b` to `hs` leaves it linked to exactly `hs` and every
      other book linked as before. */
  lemma AuthorsOfRelink(links: set<Link>, b: Hash, hs: set<Hash>)
    ensures AuthorsOf(Unlink(links, b) + LinkAll(b, hs), b) == hs
    ensures forall k :: k != b ==> AuthorsOf(Unlink(links, b) + LinkAll(b, hs), k) == AuthorsOf(links, k)
  {
    var t := Unlink(links, b) + LinkAll(b, hs);
    forall a | a in AuthorsOf(t, b) ensures a in hs {
      assert (b, a) in t;
    }
    forall a | a in hs ensures a in AuthorsOf(t, b) {
      assert (b, a) in LinkAll(b, hs);
    }
    forall k | k != b ensures AuthorsOf(t, k) == AuthorsOf(links, k) {
      forall a | a in AuthorsOf(links, k) ensures a in AuthorsOf(t, k) {
        assert (k, a) in Unlink(links, b);
      }
      forall a | a in AuthorsOf(t, k) ensures a in AuthorsOf(links, k) {
        assert (k, a) !in LinkAll(b, hs);
      }
    }
  }

  /** Replacing the links of book `oh` by links from book `nh` to `hs` moves
      each author's linked-book set by exactly that one book. */
  lemma BooksOfRelinkSet(links: set<Link>, oh: Hash, nh: Hash, hs: set<Hash>, a: Hash)
    ensures BooksOf(Unlink(links, oh) + LinkAll(nh, hs), a)
            == (BooksOf(links, a) - {oh}) + (if a in hs then {nh} else {})
  {
    var after := BooksOf(Unlink(links, oh) + LinkAll(nh, hs), a);
    forall b | b in after ensures b in BooksOf(links, a) - {oh} || (a in hs && b == nh) {
      assert (b, a) in Unlink(links, oh) + LinkAll(nh, hs);
    }
    forall b | b in BooksOf(links, a) - {oh} ensures b in after {
      assert (b, a) in Unlink(links, oh);
    }
    if a in hs {
      assert (nh, a) in LinkAll(nh, hs);
    }
  }

  /** ... and so moves its size by the one link lost and the one gained,
      provided `nh` is `oh` or carries no link yet. */
  lemma BooksOfRelink(links: set<Link>, oh: Hash, nh: Hash, hs: set<Hash>, a: Hash)
    requires nh == oh || forall l :: l in links ==> l.0 != nh
    ensures |BooksOf(Unlink(links, oh) + LinkAll(nh, hs), a)|
            == |BooksOf(links, a)| - Ind(a in AuthorsOf(links, oh)) + Ind(a in hs)
  {
    var before := BooksOf(links, a);
    BooksOfRelinkSet(links, oh, nh, hs, a);
    assert oh in before <==> a in AuthorsOf(links, oh) by {
      assert oh in before <==> (oh, a) in links;
    }
    assert nh !in before - {oh} by {
      assert nh in before ==> (nh, a) in links;
    }
    var rest := before - {oh};
    assert |rest| == |before| - Ind(oh in before);
    assert |rest + (if a in hs then {nh} else {})| == |rest| + Ind(a in hs);
  }

  /** The ledger is right after a relink when every author's count moved by
      exactly the link it gained or lost, and an author that is new has no
      row before. */
  lemma RelinkKeepsCounts(s: State, t: State, oh: Hash, nh: Hash, hs: set<Hash>)
    requires CountsMatch(s)
    requires forall l :: l in s.links ==> l.1 in s.authors
    requires nh == oh || forall l :: l in s.links ==> l.0 != nh
    requires t.links == Unlink(s.links, oh) + LinkAll(nh, hs)
    requires t.authors.Keys <= s.authors.Keys + hs
    requires forall a :: a in t.authors
               ==> t.authors[a].count == CountOf(s.authors, a) + Ind(a in hs)
                                         - Ind(a in AuthorsOf(s.links, oh))
    ensures CountsMatch(t)
  {
    forall a | a in t.authors ensures t.authors[a].count == |BooksOf(t.links, a)| {
      BooksOfRelink(s.links, oh, nh, hs, a);
      if a !in s.authors {
        assert forall l :: l in s.links ==> l.1 != a;
        assert BooksOf(s.links, a) == {};
        assert a !in AuthorsOf(s.links, oh) by {
          assert a in AuthorsOf(s.links, oh) ==> (oh, a) in s.links;
        }
      }
    }
  }

  /** A relink keeps every link resolvable when the new book key and the
      linked authors exist and no other book lost its key. */
  lemma RelinkKeepsResolve(s: State, t: State, oh: Hash, nh: Hash, hs: set<Hash>)
    requires LinksResolve(s)
    requires t.links == Unlink(s.links, oh) + LinkAll(nh, hs)
    requires BookHashes(s.books) - {oh} <= BookHashes(t.books)
    requires hs != {} ==> nh in BookHashes(t.books)
    requires s.authors.Keys + hs <= t.authors.Keys
    ensures LinksResolve(t)
  {
    forall l | l in t.links ensures l.0 in BookHashes(t.books) && l.1 in t.authors {
      if l in Unlink(s.links, oh) {
        assert l in s.links && l.0 != oh;
      } else {
        var h :| h in hs && l == (nh, h);
      }
    }
  }
}
