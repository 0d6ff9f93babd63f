/** The pure logic of the three mutating handlers: what each one validates,
    sanitises and hashes before calling the store, how it turns a store
    error into a response, and what it leaves in the store. Each handler runs
    its statements in one transaction with a deferred rollback and commits
    only after the model call succeeded, so a response other than success
    leaves the store exactly as it was. */
module Handlers {
  import opened Base
  import opened Validation
  import opened Store
  import Helper
  import Filters
  import Create
  import Update
  import Delete
  import Read

  /** The kind of response a handler writes. */
  datatype Response =
    | Created                        // 201, the entry was inserted
    | Done                           // 200, the entry was updated or deleted
    | FailedValidation(errors: Log)  // 422, with the validator's errors
    | EditConflictResponse           // 409
    | ServerError                    // 500

  /** The store a handler leaves behind, after commit or rollback, and its
      response. */
  datatype Outcome = Outcome(state: State, response: Response)

  /** Every author row is filed under the content key of its name. */
  ghost predicate NamesHashed(s: State, H: Text -> Text) {
    forall a :: a in s.authors ==> H(s.authors[a].name) == a
  }

  /** The content-key function never maps two texts to the same key. */
  ghost predicate CollisionFree(H: Text -> Text) {
    forall x, y :: H(x) == H(y) ==> x == y
  }

  // ------------------------------------------------------------------ delete

  /** How the delete handler reports a model error: an edit conflict is a
      conflict, and every other error, "not found" included, is a server
      error. */
  function DeleteErrorResponse(err: Error): (r: Response)
    ensures r == EditConflictResponse <==> err == EditConflict
    ensures r != EditConflictResponse ==> r == ServerError
  {
    if err == EditConflict then EditConflictResponse else ServerError
  }

  /** `DeleteEntryHandlerDelete` for book `id`: the deletion as written,
      committed when it succeeds. Since the deletion reports only "not
      found", the conflict response is never written. */
  ghost function DeleteHandler(s: State, id: int): (r: Outcome)
    ensures r.response == Done <==> Delete.DeleteBook(s, id).Ok?
    ensures r.response == Done ==> r.state == Delete.DeleteBook(s, id).value
    ensures r.response != Done ==> r.state == s && r.response == ServerError
  {
    match Delete.DeleteBook(s, id)
    case Err(err) => Outcome(s, DeleteErrorResponse(err))
    case Ok(t) => Outcome(t, Done)
  }

  /** In a consistent catalogue the delete handler succeeds exactly for a
      book that has links, and it keeps the catalogue consistent when that
      book has at most one author. */
  lemma DeleteHandlerKeepsConsistency(s: State, id: int)
    requires Consistent(s)
    requires id in s.books ==> |AuthorsOf(s.links, s.books[id].hash)| <= 1
    ensures Consistent(DeleteHandler(s, id).state)
    ensures DeleteHandler(s, id).response == Done
            <==> id in s.books && AuthorsOf(s.links, s.books[id].hash) != {}
  {
    Delete.DeleteBookSucceeds(s, id);
    if Delete.DeleteBook(s, id).Ok? {
      Delete.DeleteOneAuthorKeepsConsistency(s, id);
    }
  }

  /** The delete handler answers success on a consistent two-author book
      and commits a store whose counts no longer match the links. */
  lemma DeleteHandlerBreaksCounts()
    ensures Consistent(Delete.CoAuthored())
    ensures DeleteHandler(Delete.CoAuthored(), 1).response == Done
    ensures !CountsMatch(DeleteHandler(Delete.CoAuthored(), 1).state)
  {
    Delete.DeleteTwoAuthorsBreaksCounts();
  }

  /** The delete handler over the corrected deletion. */
  function DeleteHandlerAll(s: State, id: int): (r: Outcome)
    ensures r.response == Done <==> Delete.DeleteBookAll(s, id).Ok?
    ensures r.response == Done ==> r.state == Delete.DeleteBookAll(s, id).value
    ensures r.response != Done ==> r.state == s && r.response == ServerError
  {
    match Delete.DeleteBookAll(s, id)
    case Err(err) => Outcome(s, DeleteErrorResponse(err))
    case Ok(t) => Outcome(t, Done)
  }

  /** The corrected delete handler keeps every consistent catalogue
      consistent, whatever the number of authors. */
  lemma DeleteHandlerAllKeepsConsistency(s: State, id: int)
    requires Consistent(s)
    ensures Consistent(DeleteHandlerAll(s, id).state)
    ensures DeleteHandlerAll(s, id).response == Done
            <==> id in s.books && AuthorsOf(s.links, s.books[id].hash) != {}
  {
    Delete.DeleteBookAllSucceeds(s, id);
    if Delete.DeleteBookAll(s, id).Ok? {
      Delete.DeleteBookAllKeepsConsistency(s, id);
    }
  }

  // ------------------------------------------------------------------ insert

  /** The author names upper-cased one by one. */
  function Sanitise(names: seq<Text>): (r: seq<Text>)
    ensures |r| == |names|
    ensures forall i :: 0 <= i < |names| ==> r[i] == Helper.ToUpper(names[i])
  {
    MapSeq(Helper.ToUpper, names)
  }

  /** The entry with its author names sanitised; a nil list stays nil. */
  function SanitiseEntry(e: Create.CreateBookEntry): Create.CreateBookEntry {
    match e.authors.list
    case None => e
    case Some(names) => e.(authors := e.authors.(list := Some(Sanitise(names))))
  }

  /** The author keys the insert handler stores: the keys of the sanitised
      names, in order. */
  function AuthorKeys(names: seq<Text>, H: Text -> Text): (r: seq<Hash>)
    ensures |r| == |names|
    ensures forall i :: 0 <= i < |names| ==> r[i] == H(Helper.ToUpper(names[i]))
  {
    MapSeq(H, Sanitise(names))
  }

  /** `InsertEntryHandlerPost` after decoding: validate the entry as sent,
      upper-case the names, compute the keys, insert; a validation failure
      is reported with its errors and every store error as a server error. */
  function InsertHandler(s: State, e: Create.CreateBookEntry, H: Text -> Text, currentYear: int)
    : (r: Outcome)
    ensures r.response.FailedValidation?
            <==> !(&& BookFieldsOk(e.book.title, e.book.publisher, e.book.year, e.book.pages,
                                   e.book.genres, currentYear)
                   && AuthorsOk(e.authors.list))
    ensures r.response == ServerError
            <==> && BookFieldsOk(e.book.title, e.book.publisher, e.book.year, e.book.pages,
                                 e.book.genres, currentYear)
                 && AuthorsOk(e.authors.list)
                 && (|| H(e.book.title) in BookHashes(s.books) || s.nextBookId in s.books
                     || !NoDup(AuthorKeys(e.authors.list.value, H)))
    ensures r.response != Created ==> r.state == s
    ensures r.response == Created ==>
              && r.state.books == s.books[s.nextBookId := Create.NewRow(e.book.(hash := H(e.book.title)))]
              && r.state.links == s.links + LinkAll(H(e.book.title), Elems(AuthorKeys(e.authors.list.value, H)))
              && r.state.authors.Keys == s.authors.Keys + Elems(AuthorKeys(e.authors.list.value, H))
  {
    var verdict := Create.ValidateEntry(e, [], currentYear);
    if !verdict.0 then Outcome(s, FailedValidation(verdict.1))
    else
      var hashed := Create.HashEntries(SanitiseEntry(e), H);
      assert hashed.authors.hash == AuthorKeys(e.authors.list.value, H);
      match Create.Insert(s, hashed)
      case Err(_) => Outcome(s, ServerError)
      case Ok(t) => Outcome(t, Created)
  }

  /** Validating before or after upper-casing the names gives the same
      verdict and the same errors: upper-casing keeps every name's length. */
  lemma SanitiseKeepsVerdict(e: Create.CreateBookEntry, v: Log, currentYear: int)
    ensures Create.ValidateEntry(SanitiseEntry(e), v, currentYear) == Create.ValidateEntry(e, v, currentYear)
  {
    if e.authors.list.Some? {
      var raw := e.authors.list.value;
      var up := Sanitise(raw);
      var b := e.book;
      var v1 := CheckBook(v, b.title, b.publisher, b.year, b.pages, b.genres, currentYear);
      assert CheckAuthorCount(v1, Some(up)) == CheckAuthorCount(v1, Some(raw));
      CheckItemsByLength(CheckAuthorCount(v1, Some(raw)), raw, up);
    }
  }

  /** The insert handler keeps the catalogue consistent. */
  lemma InsertHandlerKeepsConsistency(s: State, e: Create.CreateBookEntry, H: Text -> Text,
                                      currentYear: int)
    requires Consistent(s)
    ensures Consistent(InsertHandler(s, e, H, currentYear).state)
  {
    var verdict := Create.ValidateEntry(e, [], currentYear);
    if verdict.0 {
      var hashed := Create.HashEntries(SanitiseEntry(e), H);
      if Create.Insert(s, hashed).Ok? {
        Create.InsertPreservesConsistency(s, hashed);
      }
    }
  }

  /** The insert handler files every new author under the key of its stored
      (upper-cased) name, so the catalogue keeps names and keys matched. */
  lemma InsertHandlerKeepsNamesHashed(s: State, e: Create.CreateBookEntry, H: Text -> Text,
                                      currentYear: int)
    requires NamesHashed(s, H)
    ensures NamesHashed(InsertHandler(s, e, H, currentYear).state, H)
  {
    var r := InsertHandler(s, e, H, currentYear);
    if r.response == Created {
      var names := Sanitise(e.authors.list.value);
      var hs := AuthorKeys(e.authors.list.value, H);
      var up := UpsertAll(s.authors, s.nextAuthorId, names, hs);
      assert r.state.authors == up.0;
      forall a | a in up.0 ensures H(up.0[a].name) == a {
        if a !in s.authors {
          var i :| 0 <= i < |hs| && hs[i] == a;
          assert up.0[a].name == names[i];
        }
      }
    }
  }

  // ------------------------------------------------------------------ update

  /** The fields a patch request may carry; an absent field is `None`. */
  datatype Patch = Patch(title: Option<Text>, publisher: Option<Text>, year: Option<int>,
                         pages: Option<int>, genres: Option<seq<Text>>, names: Option<seq<Text>>)

  /** The update entry the patch handler builds for book `id` from the
      stored entry `pre` and the patch: each field the client sent, and the
      stored one otherwise. The client's names arrive upper-cased; the
      stored names are taken as read. */
  function Merge(id: int, pre: Read.ReadEntry, p: Patch): (r: Update.UpdateEntry)
    ensures r.book.id == Some(id) && r.book.hash == None && Update.Filled(r.book)
    ensures p.title.Some? ==> r.book.title == p.title
    ensures p.title.None? ==> r.book.title == Some(pre.book.title)
    ensures p.publisher.Some? ==> r.book.publisher == p.publisher
    ensures p.publisher.None? ==> r.book.publisher == Some(pre.book.publisher)
    ensures p.year.Some? ==> r.book.year == p.year
    ensures p.year.None? ==> r.book.year == Some(pre.book.year)
    ensures p.pages.Some? ==> r.book.pages == p.pages
    ensures p.pages.None? ==> r.book.pages == Some(pre.book.pages)
    ensures p.genres.Some? ==> r.book.genres == p.genres
    ensures p.genres.None? ==> r.book.genres == Some(pre.book.genres)
    ensures p.names.Some? ==> r.authors.names == Some(Sanitise(p.names.value))
    ensures p.names.None? ==> r.authors.names == Some(pre.list.names)
  {
    Update.UpdateEntry(
      Update.UpdateBook(Some(id), None,
                        Some(p.title.GetOr(pre.book.title)),
                        Some(p.publisher.GetOr(pre.book.publisher)),
                        Some(p.year.GetOr(pre.book.year)),
                        Some(p.pages.GetOr(pre.book.pages)),
                        Some(p.genres.GetOr(pre.book.genres))),
      Update.UpdateAuthors(Some(if p.names.Some? then Sanitise(p.names.value) else pre.list.names), []))
  }

  /** The author names the update ends with. */
  function NewNames(pre: Read.ReadEntry, p: Patch): seq<Text> {
    if p.names.Some? then Sanitise(p.names.value) else pre.list.names
  }

  /** The handler's statements once the merged entry is valid: diff the
      stored names against the new ones, hash the names that left and the
      names that came, compute the entry's keys, and run the update as
      written, read-back of the decrement included. */
  ghost function ApplyPatch(s: State, olds: seq<Text>, e: Update.UpdateEntry, H: Text -> Text)
    : (r: Result<State, Error>)
    requires Update.Filled(e.book) && e.authors.names.Some?
    ensures e.book.id.None? || e.book.id.value !in s.books ==> r == Err(EditConflict)
    ensures r.Ok? ==> && e.book.id.Some? && e.book.id.value in s.books && e.book.id.value in r.value.books
                      && r.value.books[e.book.id.value].hash == s.books[e.book.id.value].hash
                      && AuthorsOf(s.links, H(e.book.title.value)) != {}
  {
    var d := Filters.DiffArrays(olds, e.authors.names.value);
    var hs := Filters.HashArrays(d.exclusiveOld, d.exclusiveNew, H);
    Update.UpdateScanned(s, Update.HashEntries(e, H), hs.0, d.exclusiveNew, hs.1)
  }

  /** The update's list of keys to decrement is empty exactly when every
      stored name is among the new ones. */
  lemma NothingDropped(olds: seq<Text>, news: seq<Text>, H: Text -> Text)
    ensures var d := Filters.DiffArrays(olds, news);
            Filters.HashArrays(d.exclusiveOld, d.exclusiveNew, H).0 == [] <==> Elems(olds) <= Elems(news)
  {
    var d := Filters.DiffArrays(olds, news);
    assert Elems(d.exclusiveOld) == Elems(olds) - Elems(news);
    if d.exclusiveOld != [] {
      assert d.exclusiveOld[0] in Elems(d.exclusiveOld);
    }
  }

  /** A patch commits only when it keeps every stored author name: a patch
      whose names leave one out runs the decrement, whose read-back fails,
      and the handler answers with a server error and changes nothing. */
  lemma UpdateHandlerKeepsStoredNames(s: State, id: int, p: Patch, H: Text -> Text, currentYear: int)
    requires Read.Get(s, id).Ok?
    ensures var pre := Read.Get(s, id).value;
            !(Elems(pre.list.names) <= Elems(NewNames(pre, p)))
            ==> && UpdateHandler(s, id, p, H, currentYear).response != Done
                && UpdateHandler(s, id, p, H, currentYear).state == s
  {
    var pre := Read.Get(s, id).value;
    var e := Merge(id, pre, p);
    if UpdateHandler(s, id, p, H, currentYear).response == Done {
      assert e.authors.names.value == NewNames(pre, p);
      NothingDropped(pre.list.names, NewNames(pre, p), H);
    }
  }

  /** `UpdateEntriesHandlerPatch` after decoding: read the stored entry,
      merge the patch over it, validate, and apply; a failed read or update
      is a server error. */
  ghost function UpdateHandler(s: State, id: int, p: Patch, H: Text -> Text, currentYear: int)
    : (r: Outcome)
    ensures r.response != Done ==> r.state == s
    ensures r.response == Done || r.response == ServerError || r.response.FailedValidation?
    ensures r.response.FailedValidation? || r.response == Done ==> Read.Get(s, id).Ok?
    ensures r.response == Done ==>
              var pre := Read.Get(s, id).value;
              ApplyPatch(s, pre.list.names, Merge(id, pre, p), H) == Ok(r.state)
  {
    match Read.Get(s, id)
    case Err(_) => Outcome(s, ServerError)
    case Ok(pre) =>
      var e := Merge(id, pre, p);
      var verdict := Update.ValidateEntry(e, [], currentYear);
      if !verdict.0 then Outcome(s, FailedValidation(verdict.1))
      else
        match ApplyPatch(s, pre.list.names, e, H)
        case Err(_) => Outcome(s, ServerError)
        case Ok(t) => Outcome(t, Done)
  }

  /** A successful patch writes, for every field, the client's value when
      one was sent and the stored one otherwise, and the version goes up by
      one; the book keeps its stored key, and it succeeds only when some
      author is linked under the key of the merged title. No other book row
      changes. */
  lemma UpdateHandlerWritesMerge(s: State, id: int, p: Patch, H: Text -> Text, currentYear: int)
    requires UpdateHandler(s, id, p, H, currentYear).response == Done
    ensures id in s.books && id in UpdateHandler(s, id, p, H, currentYear).state.books
    ensures var row, t := s.books[id], UpdateHandler(s, id, p, H, currentYear).state.books[id];
            && t.title == p.title.GetOr(row.title) && t.publisher == p.publisher.GetOr(row.publisher)
            && t.year == p.year.GetOr(row.year) && t.pages == p.pages.GetOr(row.pages)
            && t.genres == p.genres.GetOr(row.genres)
            && t.hash == row.hash && t.version == row.version + 1
            && AuthorsOf(s.links, H(t.title)) != {}
            && UpdateHandler(s, id, p, H, currentYear).state.books == s.books[id := t]
  {
  }

  /** In a catalogue whose authors are filed under their names' keys, the
      stored names `Get` reads for a book are distinct and their keys are
      exactly the authors linked to the book. */
  lemma StoredNamesKeys(s: State, id: int, H: Text -> Text)
    requires LinksResolve(s) && NamesHashed(s, H)
    requires Read.Get(s, id).Ok?
    ensures id in s.books
    ensures var names := Read.Get(s, id).value.list.names;
            && NoDup(names)
            && Image(H, Elems(names)) == AuthorsOf(s.links, s.books[id].hash)
  {
    var l := Read.Get(s, id).value.list;
    var names, keys := l.names, l.identifiers;
    var linked := AuthorsOf(s.links, s.books[id].hash);
    assert forall i :: 0 <= i < |names| ==> H(names[i]) == keys[i];
    assert Read.Joined(s, s.books[id].hash) == linked by {
      forall a | a in linked ensures a in s.authors {
        assert (s.books[id].hash, a) in s.links;
      }
    }
    forall a | a in linked ensures a in Image(H, Elems(names)) {
      var i :| 0 <= i < |keys| && keys[i] == a;
      assert names[i] in Elems(names);
    }
  }

  /** The author links a successful patch leaves under the key of the
      merged title are exactly the keys of the new names, and the links
      under every other key are as they were: the book's stored key is not
      the one relinked unless the title kept its key. */
  lemma UpdateHandlerRelinks(s: State, id: int, p: Patch, H: Text -> Text, currentYear: int)
    requires UpdateHandler(s, id, p, H, currentYear).response == Done
    ensures id in s.books && id in UpdateHandler(s, id, p, H, currentYear).state.books
    ensures var t := UpdateHandler(s, id, p, H, currentYear).state;
            var key := H(t.books[id].title);
            && AuthorsOf(t.links, key) == Image(H, Elems(NewNames(Read.Get(s, id).value, p)))
            && (forall k :: k != key ==> AuthorsOf(t.links, k) == AuthorsOf(s.links, k))
  {
    var pre := Read.Get(s, id).value;
    var e := Merge(id, pre, p);
    var he := Update.HashEntries(e, H);
    var t := UpdateHandler(s, id, p, H, currentYear).state;
    var key := H(e.book.title.value);
    assert t.books[id].title == e.book.title.value;
    assert t.links == Unlink(s.links, key) + LinkAll(key, Elems(he.authors.hashes));
    AuthorsOfRelink(s.links, key, Elems(he.authors.hashes));
    assert he.authors.hashes == MapSeq(H, NewNames(pre, p));
    ElemsOfMap(H, NewNames(pre, p));
  }

  /** A patch whose merged title has a key no book holds is never saved: in
      a catalogue whose links resolve no link carries that key, so the link
      deletion finds nothing, the handler answers a server error (or the
      validation failure), and the store is as it was. */
  lemma UpdateHandlerRetitleFails(s: State, id: int, p: Patch, H: Text -> Text, currentYear: int)
    requires LinksResolve(s)
    requires id in s.books ==> H(p.title.GetOr(s.books[id].title)) !in BookHashes(s.books)
    ensures UpdateHandler(s, id, p, H, currentYear).response != Done
    ensures UpdateHandler(s, id, p, H, currentYear).state == s
  {
    if Read.Get(s, id).Ok? {
      var pre := Read.Get(s, id).value;
      var e := Merge(id, pre, p);
      if e.book.id.value in s.books {
        var he := Update.HashEntries(e, H);
        var d := Filters.DiffArrays(pre.list.names, e.authors.names.value);
        var hs := Filters.HashArrays(d.exclusiveOld, d.exclusiveNew, H);
        Update.UpdateRetitleFails(s, he, hs.0, d.exclusiveNew, hs.1);
      }
    }
  }

  /** Without collisions, the keys of a listing of `b - c` are the keys of
      `b` less the keys of `c`. */
  lemma KeysOfDifference(a: seq<Text>, b: set<Text>, c: set<Text>, H: Text -> Text)
    requires CollisionFree(H)
    requires Elems(a) == b - c
    ensures Elems(MapSeq(H, a)) == Image(H, b) - Image(H, c)
  {
    ElemsOfMap(H, a);
    assert InjectiveOn(H, b + c);
    ImageDiff(H, b, c);
  }

  /** With distinct new names, stored names whose keys are the linked
      authors, and no key collisions, the hashed lists the handler derives
      from the diff are exactly the ledger's: the new keys not yet linked,
      and the linked keys no longer named. */
  lemma DiffFitsLedger(olds: seq<Text>, news: seq<Text>, H: Text -> Text, linked: set<Hash>)
    requires CollisionFree(H) && NoDup(news)
    requires Image(H, Elems(olds)) == linked
    ensures var d := Filters.DiffArrays(olds, news);
            var hs := Filters.HashArrays(d.exclusiveOld, d.exclusiveNew, H);
            && Elems(hs.1) == Elems(MapSeq(H, news)) - linked
            && Elems(hs.0) == linked - Elems(MapSeq(H, news))
  {
    var d := Filters.DiffArrays(olds, news);
    Filters.DiffOnDistinctNew(olds, news);
    Filters.DiffPartitionsOld(olds, news);
    ElemsOfMap(H, news);
    KeysOfDifference(d.exclusiveNew, Elems(news), Elems(olds), H);
    KeysOfDifference(d.exclusiveOld, Elems(olds), Elems(news), H);
    assert Filters.HashArrays(d.exclusiveOld, d.exclusiveNew, H) == (MapSeq(H, d.exclusiveOld), MapSeq(H, d.exclusiveNew));
  }

  /** Applying a valid patch as written keeps the catalogue consistent when
      the merged title keeps the book's key and the ledger lists fit the
      links, which `DiffFitsLedger` provides. */
  lemma ApplyPatchKeepsConsistency(s: State, olds: seq<Text>, e: Update.UpdateEntry, H: Text -> Text)
    requires Update.Filled(e.book) && e.authors.names.Some?
    requires Consistent(s) && CollisionFree(H) && NoDup(e.authors.names.value)
    requires e.book.id.Some? && e.book.id.value in s.books
    requires H(e.book.title.value) == s.books[e.book.id.value].hash
    requires Image(H, Elems(olds)) == AuthorsOf(s.links, s.books[e.book.id.value].hash)
    requires ApplyPatch(s, olds, e, H).Ok?
    ensures Consistent(ApplyPatch(s, olds, e, H).value)
  {
    var news := e.authors.names.value;
    var d := Filters.DiffArrays(olds, news);
    var hs := Filters.HashArrays(d.exclusiveOld, d.exclusiveNew, H);
    var he := Update.HashEntries(e, H);
    DiffFitsLedger(olds, news, H, AuthorsOf(s.links, s.books[e.book.id.value].hash));
    assert he.authors.hashes == MapSeq(H, news);
    assert Update.LedgerFits(s, s.books[e.book.id.value].hash, he, hs.0, hs.1);
    Update.UpdateKeptTitleKeepsConsistency(s, he, hs.0, d.exclusiveNew, hs.1);
  }

  /** The update handler keeps the catalogue consistent, provided the
      content key has no collisions, every author is filed under its name's
      key, the client does not send the same name twice, and the merged
      title's key is the book's own or one no book holds. A title whose key
      another book holds is the case `RetitleOntoOtherBreaksCounts` shows
      going wrong. */
  lemma UpdateHandlerKeepsConsistency(s: State, id: int, p: Patch, H: Text -> Text, currentYear: int)
    requires Consistent(s) && NamesHashed(s, H) && CollisionFree(H)
    requires p.names.Some? ==> NoDup(Sanitise(p.names.value))
    requires id in s.books ==> var key := H(p.title.GetOr(s.books[id].title));
                               key == s.books[id].hash || key !in BookHashes(s.books)
    ensures Consistent(UpdateHandler(s, id, p, H, currentYear).state)
  {
    if UpdateHandler(s, id, p, H, currentYear).response == Done {
      var pre := Read.Get(s, id).value;
      if H(p.title.GetOr(s.books[id].title)) != s.books[id].hash {
        UpdateHandlerRetitleFails(s, id, p, H, currentYear);
        assert false;
      }
      StoredNamesKeys(s, id, H);
      ApplyPatchKeepsConsistency(s, pre.list.names, Merge(id, pre, p), H);
    }
  }

  // ------------------------------------------------------------ corrections

  /** The merged entry with each repeated author name listed once. */
  function Distinct(e: Update.UpdateEntry): (r: Update.UpdateEntry)
    requires e.authors.names.Some?
    ensures r.book == e.book && r.authors.names.Some? && NoDup(r.authors.names.value)
    ensures Elems(r.authors.names.value) == Elems(e.authors.names.value)
  {
    e.(authors := e.authors.(names := Some(Dedup(e.authors.names.value))))
  }

  /** The handler's statements with the new names deduplicated before the
      diff, so a name sent twice is counted once. */
  ghost function ApplyPatchDistinct(s: State, olds: seq<Text>, e: Update.UpdateEntry, H: Text -> Text)
    : (r: Result<State, Error>)
    requires Update.Filled(e.book) && e.authors.names.Some?
    ensures NoDup(e.authors.names.value) ==> r == ApplyPatch(s, olds, e, H)
    ensures e.book.id.None? || e.book.id.value !in s.books ==> r == Err(EditConflict)
  {
    if NoDup(e.authors.names.value) then
      DedupDistinct(e.authors.names.value);
      ApplyPatch(s, olds, Distinct(e), H)
    else ApplyPatch(s, olds, Distinct(e), H)
  }

  /** Deduplicating the names keeps the catalogue consistent whatever names
      the client repeats, while the title keeps its key. */
  lemma ApplyPatchDistinctKeepsConsistency(s: State, olds: seq<Text>, e: Update.UpdateEntry,
                                           H: Text -> Text)
    requires Update.Filled(e.book) && e.authors.names.Some?
    requires Consistent(s) && CollisionFree(H)
    requires e.book.id.Some? && e.book.id.value in s.books
    requires H(e.book.title.value) == s.books[e.book.id.value].hash
    requires Image(H, Elems(olds)) == AuthorsOf(s.links, s.books[e.book.id.value].hash)
    requires ApplyPatchDistinct(s, olds, e, H).Ok?
    ensures Consistent(ApplyPatchDistinct(s, olds, e, H).value)
  {
    ApplyPatchKeepsConsistency(s, olds, Distinct(e), H);
  }

  /** The handler's statements over the corrected update, which moves the
      book to the key of its new title, with the names deduplicated. */
  ghost function ApplyPatchRekeyed(s: State, olds: seq<Text>, e: Update.UpdateEntry, H: Text -> Text)
    : (r: Result<State, Error>)
    requires Update.Filled(e.book) && e.authors.names.Some?
    ensures e.book.id.None? || e.book.id.value !in s.books ==> r == Err(EditConflict)
    ensures r.Ok? ==> && e.book.id.Some? && e.book.id.value in r.value.books
                      && r.value.books[e.book.id.value].hash == H(e.book.title.value)
    ensures e.book.id.Some? && e.book.id.value in s.books
            && H(e.book.title.value) == s.books[e.book.id.value].hash
            && Elems(olds) <= Elems(e.authors.names.value)
            ==> r == ApplyPatchDistinct(s, olds, e, H)
    ensures e.book.id.Some? && e.book.id.value in s.books
            && H(e.book.title.value) == s.books[e.book.id.value].hash
            && !(Elems(olds) <= Elems(e.authors.names.value)) && r.Ok?
            ==> ApplyPatchDistinct(s, olds, e, H) == Err(StoreFailure(ScanFailed))
    ensures e.book.id.Some? && e.book.id.value in s.books
            && H(e.book.title.value) != s.books[e.book.id.value].hash
            && H(e.book.title.value) in BookHashes(s.books)
            ==> r == Err(StoreFailure(UniqueViolation))
  {
    var de := Distinct(e);
    var d := Filters.DiffArrays(olds, de.authors.names.value);
    var hs := Filters.HashArrays(d.exclusiveOld, d.exclusiveNew, H);
    var he := Update.HashEntries(de, H);
    if de.book.id.Some? && de.book.id.value in s.books && he.book.hash == Some(s.books[de.book.id.value].hash) then
      Update.UpdateKeptKeyIsRekeyed(s, he, hs.0, d.exclusiveNew, hs.1);
      NothingDropped(olds, de.authors.names.value, H);
      Update.UpdateRekeyed(s, he, hs.0, d.exclusiveNew, hs.1)
    else Update.UpdateRekeyed(s, he, hs.0, d.exclusiveNew, hs.1)
  }

  /** The corrected update keeps every consistent catalogue consistent, for
      any title and any repeats among the names. */
  lemma ApplyPatchRekeyedKeepsConsistency(s: State, olds: seq<Text>, e: Update.UpdateEntry,
                                          H: Text -> Text)
    requires Update.Filled(e.book) && e.authors.names.Some?
    requires Consistent(s) && CollisionFree(H)
    requires e.book.id.Some? && e.book.id.value in s.books
    requires Image(H, Elems(olds)) == AuthorsOf(s.links, s.books[e.book.id.value].hash)
    requires ApplyPatchRekeyed(s, olds, e, H).Ok?
    ensures Consistent(ApplyPatchRekeyed(s, olds, e, H).value)
  {
    var de := Distinct(e);
    var news := de.authors.names.value;
    var d := Filters.DiffArrays(olds, news);
    var hs := Filters.HashArrays(d.exclusiveOld, d.exclusiveNew, H);
    var he := Update.HashEntries(de, H);
    DiffFitsLedger(olds, news, H, AuthorsOf(s.links, s.books[e.book.id.value].hash));
    assert he.authors.hashes == MapSeq(H, news);
    assert Update.LedgerFits(s, s.books[e.book.id.value].hash, he, hs.0, hs.1);
    Update.UpdateRekeyedKeepsConsistency(s, he, hs.0, d.exclusiveNew, hs.1);
  }

  /** The patch handler over the corrected update. */
  ghost function UpdateHandlerRekeyed(s: State, id: int, p: Patch, H: Text -> Text, currentYear: int)
    : (r: Outcome)
    ensures r.response != Done ==> r.state == s
    ensures r.response == Done || r.response == ServerError || r.response.FailedValidation?
    ensures r.response.FailedValidation? || r.response == Done ==> Read.Get(s, id).Ok?
    ensures r.response == Done ==>
              var pre := Read.Get(s, id).value;
              ApplyPatchRekeyed(s, pre.list.names, Merge(id, pre, p), H) == Ok(r.state)
  {
    match Read.Get(s, id)
    case Err(_) => Outcome(s, ServerError)
    case Ok(pre) =>
      var e := Merge(id, pre, p);
      var verdict := Update.ValidateEntry(e, [], currentYear);
      if !verdict.0 then Outcome(s, FailedValidation(verdict.1))
      else
        match ApplyPatchRekeyed(s, pre.list.names, e, H)
        case Err(_) => Outcome(s, ServerError)
        case Ok(t) => Outcome(t, Done)
  }

  /** The corrected patch handler keeps the catalogue consistent with no
      condition on the title or on repeated names. */
  lemma UpdateHandlerRekeyedKeepsConsistency(s: State, id: int, p: Patch, H: Text -> Text,
                                             currentYear: int)
    requires Consistent(s) && NamesHashed(s, H) && CollisionFree(H)
    ensures Consistent(UpdateHandlerRekeyed(s, id, p, H, currentYear).state)
  {
    if UpdateHandlerRekeyed(s, id, p, H, currentYear).response == Done {
      var pre := Read.Get(s, id).value;
      StoredNamesKeys(s, id, H);
      ApplyPatchRekeyedKeepsConsistency(s, pre.list.names, Merge(id, pre, p), H);
    }
  }

  /** Applying a patch whose names are the stored ones, listed without
      repeats, diffs to nothing and so leaves the author rows alone. */
  lemma ApplyPatchSameNames(s: State, olds: seq<Text>, e: Update.UpdateEntry, H: Text -> Text)
    requires Update.Filled(e.book) && e.authors.names == Some(olds) && NoDup(olds)
    ensures Filters.DiffArrays(olds, olds) == Filters.Diff(olds, [], [])
    ensures ApplyPatch(s, olds, e, H) == Update.Update(s, Update.HashEntries(e, H), [], [], [])
    ensures ApplyPatch(s, olds, e, H).Ok?
            ==> && ApplyPatch(s, olds, e, H).value.authors == s.authors
                && ApplyPatch(s, olds, e, H).value.nextAuthorId == s.nextAuthorId
  {
    Filters.DiffSame(olds);
    assert Filters.HashArrays([], [], H) == ([], []);
    assert ApplyPatch(s, olds, e, H) == Update.Update(s, Update.HashEntries(e, H), [], [], []);
  }

  /** A patch without author names, over a book whose stored names are
      distinct, leaves both exclusive lists empty, so neither ledger
      statement runs and every author row stays as it was. */
  lemma UpdateWithoutNamesKeepsLedger(s: State, id: int, p: Patch, H: Text -> Text, currentYear: int)
    requires LinksResolve(s) && NamesHashed(s, H)
    requires p.names.None? && Read.Get(s, id).Ok?
    ensures var olds := Read.Get(s, id).value.list.names;
            Filters.DiffArrays(olds, olds) == Filters.Diff(olds, [], [])
    ensures UpdateHandler(s, id, p, H, currentYear).response == Done
            ==> && UpdateHandler(s, id, p, H, currentYear).state.authors == s.authors
                && UpdateHandler(s, id, p, H, currentYear).state.nextAuthorId == s.nextAuthorId
  {
    var pre := Read.Get(s, id).value;
    StoredNamesKeys(s, id, H);
    ApplyPatchSameNames(s, pre.list.names, Merge(id, pre, p), H);
  }

  // ------------------------------------------------------------ counterexample

  /** The identity stands in for a collision-free content key. */
  function Ident(t: Text): Text { t }

  lemma IdentImage(x: set<Text>)
    ensures Image(Ident, x) == x
  {
    forall y | y in Image(Ident, x) ensures y in x {
      var z :| z in x && Ident(z) == y;
    }
    forall y | y in x ensures y in Image(Ident, x) {
      assert Ident(y) == y;
    }
  }

  /** One book `X` (its key the key of its title) by one author `A`: a
      consistent catalogue with names filed under their keys. */
  function OneBook(): State {
    State(map[1 := BookRow([88], [88], [80], 2000, 10, [[71]], 1)],
          map[[65] := AuthorRow(1, [65], 1)],
          {([88], [65])}, 2, 2)
  }

  /** The valid merged entry for book 1 that keeps everything but names `A`
      twice. */
  function NamedTwice(): Update.UpdateEntry {
    Update.UpdateEntry(Update.UpdateBook(Some(1), None, Some([88]), Some([80]), Some(2000), Some(10),
                                         Some([[71]])),
                       Update.UpdateAuthors(Some([[65], [65]]), []))
  }

  lemma OneBookConsistent()
    ensures Consistent(OneBook()) && NamesHashed(OneBook(), Ident) && CollisionFree(Ident)
  {
    var s := OneBook();
    assert BooksOf(s.links, [65]) == {[88]};
    assert s.books[1].hash in BookHashes(s.books);
  }

  /** The diff of `[A]` against `[A, A]` hands the update nothing to drop
      and `A` to add. */
  lemma NamedTwiceArgs()
    ensures ApplyPatch(OneBook(), [[65]], NamedTwice(), Ident)
            == Update.Update(OneBook(), Update.HashEntries(NamedTwice(), Ident), [], [[65]], [[65]])
  {
    var a: Text := [65];
    var e := NamedTwice();
    assert e.authors.names.value == [a, a];
    Filters.DiffRepeatedOldName(a);
    var hs := Filters.HashArrays([], [a], Ident);
    assert hs.0 == [] && hs.1 == [a];
  }

  /** The update with those lists raises `A`'s count to two and leaves one
      link to it. */
  lemma NamedTwiceResult()
    ensures var r := Update.Update(OneBook(), Update.HashEntries(NamedTwice(), Ident), [], [[65]], [[65]]);
            && r.Ok? && r.value.authors[[65]].count == 2 && r.value.links == {([88], [65])}
            && !CountsMatch(r.value)
  {
    var s := OneBook();
    var a: Text := [65];
    var he := Update.HashEntries(NamedTwice(), Ident);
    assert he.book.hash == Some([88]);
    assert he.authors.hashes == [a, a];
    assert a in AuthorsOf(s.links, [88]);
    assert Elems(he.authors.hashes) == {a};
    assert Unlink(s.links, [88]) == {};
    assert LinkAll([88], {a}) == {([88], a)};
    var t := Update.Update(s, he, [], [a], [a]).value;
    assert BooksOf(t.links, a) == {[88]};
  }

  /** A name sent twice that is already the book's author is counted again:
      the diff puts its second copy among the new names, the upsert adds one
      to its count, but the link insert keeps one link. */
  lemma NamedTwiceBreaksCounts()
    ensures Consistent(OneBook())
    ensures ApplyPatch(OneBook(), [[65]], NamedTwice(), Ident).Ok?
    ensures !CountsMatch(ApplyPatch(OneBook(), [[65]], NamedTwice(), Ident).value)
  {
    OneBookConsistent();
    NamedTwiceArgs();
    NamedTwiceResult();
  }

  /** `NamedTwice` with `A` listed once. */
  function NamedOnce(): Update.UpdateEntry {
    NamedTwice().(authors := Update.UpdateAuthors(Some([[65]]), []))
  }

  /** Deduplicated, `[A, A]` is `[A]`, the stored names, so the diff hands
      the update nothing. */
  lemma NamedTwiceDistinctArgs()
    ensures Distinct(NamedTwice()) == NamedOnce()
    ensures ApplyPatchDistinct(OneBook(), [[65]], NamedTwice(), Ident)
            == Update.Update(OneBook(), Update.HashEntries(NamedOnce(), Ident), [], [], [])
  {
    var a: Text := [65];
    assert Dedup([a, a]) == Dedup([a]);
    assert !NoDup([a, a]) by {
      assert [a, a][0] == [a, a][1];
    }
    ApplyPatchSameNames(OneBook(), [a], NamedOnce(), Ident);
  }

  /** The update the deduplicated request runs succeeds. */
  lemma NamedOnceResult()
    ensures Update.Update(OneBook(), Update.HashEntries(NamedOnce(), Ident), [], [], []).Ok?
  {
    var he := Update.HashEntries(NamedOnce(), Ident);
    assert he.book.hash == Some([88]);
    assert ([88], [65]) in OneBook().links;
    assert [65] in AuthorsOf(OneBook().links, [88]);
  }

  /** With the names deduplicated the same request succeeds and keeps the
      catalogue consistent. */
  lemma NamedTwiceDistinctKeepsCounts()
    ensures ApplyPatchDistinct(OneBook(), [[65]], NamedTwice(), Ident).Ok?
    ensures Consistent(ApplyPatchDistinct(OneBook(), [[65]], NamedTwice(), Ident).value)
  {
    var s := OneBook();
    var a: Text := [65];
    OneBookConsistent();
    NamedTwiceDistinctArgs();
    NamedOnceResult();
    OneBookAuthors();
    ApplyPatchDistinctKeepsConsistency(s, [a], NamedTwice(), Ident);
  }

  /** `NamedOnce` with `A` replaced by `B`. */
  function Replaced(): Update.UpdateEntry {
    NamedTwice().(authors := Update.UpdateAuthors(Some([[66]]), []))
  }

  /** The diff of `[a]` against `[b]` hands the update `a` to drop and `b`
      to add. */
  lemma ReplacedDiff(a: Text, b: Text)
    requires a != b
    ensures var d := Filters.DiffArrays([a], [b]);
            && d == Filters.Diff([], [a], [b])
            && Filters.HashArrays(d.exclusiveOld, d.exclusiveNew, Ident) == ([a], [b])
  {
    Filters.DiffReplaced(a, b);
    IdentHashes([a], [b]);
  }

  /** Under the identity key every list is its own list of keys. */
  lemma IdentHashes(xs: seq<Text>, ys: seq<Text>)
    ensures Filters.HashArrays(xs, ys, Ident) == (xs, ys)
  {
    var hs := Filters.HashArrays(xs, ys, Ident);
    assert forall i :: 0 <= i < |xs| ==> hs.0[i] == Ident(xs[i]) == xs[i];
    assert forall i :: 0 <= i < |ys| ==> hs.1[i] == Ident(ys[i]) == ys[i];
    assert hs.0 == xs && hs.1 == ys;
  }

  /** So the handler as written runs the update with those lists... */
  lemma ReplacedArgs()
    ensures ApplyPatch(OneBook(), [[65]], Replaced(), Ident)
            == Update.UpdateScanned(OneBook(), Update.HashEntries(Replaced(), Ident), [[65]], [[66]], [[66]])
  {
    ReplacedDiff([65], [66]);
  }

  /** ...and so does the corrected one, the names being distinct already. */
  lemma ReplacedRekeyedArgs()
    ensures ApplyPatchRekeyed(OneBook(), [[65]], Replaced(), Ident)
            == Update.UpdateRekeyed(OneBook(), Update.HashEntries(Replaced(), Ident), [[65]], [[66]], [[66]])
  {
    var b: Text := [66];
    assert Distinct(Replaced()) == Replaced() by {
      assert Dedup([b]) == [b];
    }
    ReplacedDiff([65], b);
  }

  /** The statements themselves apply that replacement: `A` loses the book
      and `B` is inserted with it. */
  lemma ReplacedResult()
    ensures Update.Update(OneBook(), Update.HashEntries(Replaced(), Ident), [[65]], [[66]], [[66]]).Ok?
  {
    var he := Update.HashEntries(Replaced(), Ident);
    var a: Text := [65];
    assert he.book.hash == Some([88]);
    assert ([88], a) in OneBook().links;
    assert a in AuthorsOf(OneBook().links, [88]);
    assert a in Elems([a]);
  }

  /** Replacing a book's one author by another never commits as written:
      the decrement's read-back fails. The corrected handler commits the
      same request and keeps the catalogue consistent. */
  lemma ReplaceAuthorFails()
    ensures Consistent(OneBook())
    ensures ApplyPatch(OneBook(), [[65]], Replaced(), Ident) == Err(StoreFailure(ScanFailed))
    ensures ApplyPatchRekeyed(OneBook(), [[65]], Replaced(), Ident).Ok?
    ensures Consistent(ApplyPatchRekeyed(OneBook(), [[65]], Replaced(), Ident).value)
  {
    var he := Update.HashEntries(Replaced(), Ident);
    OneBookConsistent();
    ReplacedArgs();
    ReplacedRekeyedArgs();
    ReplacedResult();
    assert he.book.hash == Some(OneBook().books[1].hash);
    Update.UpdateKeptKeyIsRekeyed(OneBook(), he, [[65]], [[66]], [[66]]);
    OneBookAuthors();
    ApplyPatchRekeyedKeepsConsistency(OneBook(), [[65]], Replaced(), Ident);
  }

  /** The keys of `OneBook`'s stored names are the authors linked to it. */
  lemma OneBookAuthors()
    ensures Image(Ident, Elems([[65]])) == AuthorsOf(OneBook().links, OneBook().books[1].hash)
  {
    var a: Text := [65];
    assert AuthorsOf(OneBook().links, [88]) == {a} by {
      assert ([88], a) in OneBook().links;
    }
    assert Elems([a]) == {a};
    IdentImage({a});
  }

  /** Two one-author books whose keys are their titles: `X` by `A` and `Y`
      by `B`. */
  function TwoTitled(): State {
    State(map[1 := BookRow([88], [88], [80], 2000, 10, [[71]], 1),
              2 := BookRow([89], [89], [80], 2000, 10, [[71]], 1)],
          map[[65] := AuthorRow(1, [65], 1), [66] := AuthorRow(2, [66], 1)],
          {([88], [65]), ([89], [66])}, 3, 3)
  }

  /** The valid merged entry that retitles book 1 to `Y` and keeps its
      author. */
  function RetitledOntoY(): Update.UpdateEntry {
    Update.UpdateEntry(Update.UpdateBook(Some(1), None, Some([89]), Some([80]), Some(2000), Some(10),
                                         Some([[71]])),
                       Update.UpdateAuthors(Some([[65]]), []))
  }

  lemma TwoTitledConsistent()
    ensures Consistent(TwoTitled()) && NamesHashed(TwoTitled(), Ident)
  {
    var s := TwoTitled();
    assert BooksOf(s.links, [65]) == {[88]};
    assert BooksOf(s.links, [66]) == {[89]};
    assert s.books[1].hash in BookHashes(s.books) && s.books[2].hash in BookHashes(s.books);
  }

  /** The names are unchanged, so the diff hands the update nothing. */
  lemma RetitledOntoYArgs()
    ensures ApplyPatch(TwoTitled(), [[65]], RetitledOntoY(), Ident)
            == Update.Update(TwoTitled(), Update.HashEntries(RetitledOntoY(), Ident), [], [], [])
  {
    Filters.DiffSame([[65]]);
    assert Filters.HashArrays([], [], Ident) == ([], []);
  }

  /** The update as written replaces `Y`'s link to `B` by a link to `A`,
      and no count moves. */
  lemma RetitledOntoYResult()
    ensures var r := Update.Update(TwoTitled(), Update.HashEntries(RetitledOntoY(), Ident), [], [], []);
            && r.Ok? && r.value.authors == TwoTitled().authors
            && r.value.links == {([88], [65]), ([89], [65])}
            && !CountsMatch(r.value)
  {
    var s := TwoTitled();
    var he := Update.HashEntries(RetitledOntoY(), Ident);
    assert he.book.hash == Some([89]);
    assert Elems(he.authors.hashes) == {[65]} by {
      assert he.authors.hashes == [[65]];
    }
    assert [66] in AuthorsOf(s.links, [89]) by {
      assert ([89], [66]) in s.links;
    }
    assert Unlink(s.links, [89]) == {([88], [65])};
    assert LinkAll([89], {[65]}) == {([89], [65])};
    var t := Update.Update(s, he, [], [], []).value;
    assert BooksOf(t.links, [65]) == {[88], [89]};
  }

  /** The corrected update refuses the retitle: `Y`'s key is taken. */
  lemma RetitledOntoYRefused()
    ensures ApplyPatchRekeyed(TwoTitled(), [[65]], RetitledOntoY(), Ident) == Err(StoreFailure(UniqueViolation))
  {
    var s := TwoTitled();
    var e := RetitledOntoY();
    assert e.book.id == Some(1) && 1 in s.books && s.books[1].hash == [88];
    assert Ident(e.book.title.value) == [89];
    assert s.books[2].hash == [89];
    assert [89] in BookHashes(s.books);
  }

  /** Retitling a book to another book's title is accepted by the handler's
      statements as written and links the author to both books while
      counting one; the corrected update refuses it. */
  lemma RetitleOntoOtherBreaksCounts()
    ensures Consistent(TwoTitled()) && NamesHashed(TwoTitled(), Ident) && CollisionFree(Ident)
    ensures ApplyPatch(TwoTitled(), [[65]], RetitledOntoY(), Ident).Ok?
    ensures !CountsMatch(ApplyPatch(TwoTitled(), [[65]], RetitledOntoY(), Ident).value)
    ensures ApplyPatchRekeyed(TwoTitled(), [[65]], RetitledOntoY(), Ident) == Err(StoreFailure(UniqueViolation))
  {
    TwoTitledConsistent();
    RetitledOntoYArgs();
    RetitledOntoYResult();
    RetitledOntoYRefused();
  }
}
