/** The field validator the entry and filter checks are written against,
    and the bounds every book entry must meet (create and update share them).

    The validator package itself is not part of this model. `Check(cond,
    key, msg)` records an error under `key` when `cond` is false and
    `Valid()` holds when nothing has been recorded; here the record is a log
    of (field, message) pairs in the order the checks failed. */
module Validation {
  import opened Base

  /** The keys errors are recorded under. `Query` is a query-string key. */
  datatype Field =
    | Title | Publisher | Year | PageCount | Genres | Authors | AuthorItems
    | Page | PageSize | Sort
    | Query(key: Text)

  /** The messages, one constructor per message format in the source. */
  datatype Msg =
    | Missing                      // "%s field must be provided"
    | TooLong(maxBytes: int)       // "... no longer than / less than %d bytes"
    | InFuture                     // "... must not be set in the future"
    | TooEarly(minYear: int)       // "... must not be set before %d"
    | TooMany(max: int)            // "... must not be more than / contain more than %d"
    | TooFew(min: int)             // "... must have / contain at least %d"
    | MustExceed(bound: int)       // "%s field must be larger than %d"
    | MustBeLess(bound: int)       // "%s field must be less than %d"
    | InvalidChoice                // "invalid %s parameter"
    | NotInteger                   // "must be an integer value"

  type Log = seq<(Field, Msg)>

  /** `v.Check(cond, key, msg)`. */
  function Check(v: Log, cond: bool, key: Field, msg: Msg): Log {
    if cond then v else v + [(key, msg)]
  }

  /** `v.AddError(key, msg)`. */
  function AddError(v: Log, key: Field, msg: Msg): Log {
    v + [(key, msg)]
  }

  /** `v.Valid()`: no error recorded. */
  predicate Valid(v: Log) {
    v == []
  }

  const MaxTitleBytes := 300
  const MaxPublisherBytes := 300
  const MinYear := 1900
  const MinPageCount := 1
  const MaxPageCount := 10000
  const MinGenreCount := 1
  const MaxGenreCount := 5
  const MinAuthorCount := 1
  const MaxAuthorCount := 5
  const MaxNameBytes := 100

  /** What the book half of an entry must satisfy, stated directly. */
  predicate BookFieldsOk(title: Text, publisher: Text, year: int, pages: int,
                         genres: Option<seq<Text>>, currentYear: int) {
    && 0 < |title| <= MaxTitleBytes
    && 0 < |publisher| <= MaxPublisherBytes
    && year != 0 && MinYear <= year <= currentYear
    && MinPageCount <= pages <= MaxPageCount
    && genres.Some? && MinGenreCount <= |genres.value| <= MaxGenreCount
  }

  /** What one author name must satisfy. */
  predicate NameOk(name: Text) {
    0 < |name| <= MaxNameBytes
  }

  /** What the author half of an entry must satisfy, stated directly. */
  predicate AuthorsOk(names: Option<seq<Text>>) {
    && names.Some?
    && MinAuthorCount <= |names.value| <= MaxAuthorCount
    && forall i :: 0 <= i < |names.value| ==> NameOk(names.value[i])
  }

  /** The message recorded for the first bad author name. */
  function NameMsg(name: Text): Msg {
    if name == [] then Missing else TooLong(MaxNameBytes)
  }

  /** Entries after position `from` only use book-half keys. */
  predicate BookKeysOnly(v: Log, from: nat) {
    forall i :: from <= i < |v| ==> v[i].0 !in {Authors, AuthorItems}
  }

  /** A run of checks against one validator, in order. */
  function CheckAll(v: Log, checks: seq<(bool, Field, Msg)>): (r: Log)
    ensures |v| <= |r| && r[..|v|] == v
    ensures r == v <==> forall i :: 0 <= i < |checks| ==> checks[i].0
    ensures forall i :: |v| <= i < |r| ==> r[i].0 in KeysOf(checks)
    decreases |checks|
  {
    if checks == [] then v
    else
      var r := CheckAll(Check(v, checks[0].0, checks[0].1, checks[0].2), checks[1..]);
      assert forall i :: 0 <= i < |checks[1..]| ==> checks[1..][i] == checks[i + 1];
      r
  }

  /** The keys a run of checks can record. */
  function KeysOf(checks: seq<(bool, Field, Msg)>): set<Field> {
    set c | c in checks :: c.1
  }

  /** The thirteen book-field checks, in source order. */
  function BookChecks(title: Text, publisher: Text, year: int, pages: int,
                      genres: Option<seq<Text>>, currentYear: int): seq<(bool, Field, Msg)>
  {
    var g := |genres.GetOr([])|;
    [ (title != [], Title, Missing),
      (|title| <= MaxTitleBytes, Title, TooLong(MaxTitleBytes)),
      (publisher != [], Publisher, Missing),
      (|publisher| <= MaxPublisherBytes, Publisher, TooLong(MaxPublisherBytes)),
      (year != 0, Year, Missing),
      (year <= currentYear, Year, InFuture),
      (year >= MinYear, Year, TooEarly(MinYear)),
      (pages != 0, PageCount, Missing),
      (pages <= MaxPageCount, PageCount, TooMany(MaxPageCount)),
      (pages >= MinPageCount, PageCount, TooFew(MinPageCount)),
      (genres.Some?, Genres, Missing),
      (g <= MaxGenreCount, Genres, TooMany(MaxGenreCount)),
      (g >= MinGenreCount, Genres, TooFew(MinGenreCount)) ]
  }

  /** The book-field checks all pass exactly when the book half is
      acceptable, and they only use book-half keys. */
  lemma BookChecksMeaning(title: Text, publisher: Text, year: int, pages: int,
                          genres: Option<seq<Text>>, currentYear: int)
    ensures var checks := BookChecks(title, publisher, year, pages, genres, currentYear);
            && ((forall i :: 0 <= i < |checks| ==> checks[i].0)
                <==> BookFieldsOk(title, publisher, year, pages, genres, currentYear))
            && Authors !in KeysOf(checks) && AuthorItems !in KeysOf(checks)
  {
    var checks := BookChecks(title, publisher, year, pages, genres, currentYear);
    if forall i :: 0 <= i < |checks| ==> checks[i].0 {
      assert checks[0].0 && checks[1].0 && checks[2].0 && checks[3].0 && checks[4].0;
      assert checks[5].0 && checks[6].0 && checks[7].0 && checks[8].0 && checks[9].0;
      assert checks[10].0 && checks[11].0 && checks[12].0;
    }
    forall c | c in checks ensures c.1 in {Title, Publisher, Year, PageCount, Genres} {
    }
  }

  /** The book-field checks leave the log alone exactly when the book half
      is acceptable, and only ever record book-half keys. */
  function CheckBook(v: Log, title: Text, publisher: Text, year: int, pages: int,
                     genres: Option<seq<Text>>, currentYear: int): (r: Log)
    ensures |v| <= |r| && r[..|v|] == v
    ensures r == v <==> BookFieldsOk(title, publisher, year, pages, genres, currentYear)
    ensures BookKeysOnly(r, |v|)
  {
    BookChecksMeaning(title, publisher, year, pages, genres, currentYear);
    CheckAll(v, BookChecks(title, publisher, year, pages, genres, currentYear))
  }

  /** The three author-count checks. */
  function CheckAuthorCount(v: Log, names: Option<seq<Text>>): (r: Log)
    ensures |v| <= |r| && r[..|v|] == v
    ensures r == v <==> names.Some? && MinAuthorCount <= |names.value| <= MaxAuthorCount
  {
    var n := |names.GetOr([])|;
    var v1 := Check(v, names.Some?, Authors, Missing);
    var v2 := Check(v1, n <= MaxAuthorCount, Authors, TooMany(MaxAuthorCount));
    Check(v2, n >= MinAuthorCount, Authors, TooFew(MinAuthorCount))
  }

  /** The per-name loop: two checks per name, leaving at the first name
      that records an error. */
  function CheckItems(v: Log, names: seq<Text>): (r: (bool, Log))
    ensures r.0 <==> Valid(v) && forall i :: 0 <= i < |names| ==> NameOk(names[i])
    ensures r.0 ==> r.1 == v
    ensures v <= r.1
    decreases |names|
  {
    if names == [] then (Valid(v), v)
    else
      var v1 := Check(v, names[0] != [], AuthorItems, Missing);
      var v2 := Check(v1, |names[0]| <= MaxNameBytes, AuthorItems, TooLong(MaxNameBytes));
      if !Valid(v2) then (false, v2) else CheckItems(v2, names[1..])
  }

  /** On a clean log the loop accepts exactly when every name is fine, and
      otherwise records the one message for the first bad name. */
  lemma {:induction false} CheckItemsFromClean(names: seq<Text>)
    ensures CheckItems([], names).0 <==> forall i :: 0 <= i < |names| ==> NameOk(names[i])
    ensures forall k :: 0 <= k < |names| && !NameOk(names[k])
                        && (forall j :: 0 <= j < k ==> NameOk(names[j]))
                        ==> CheckItems([], names).1 == [(AuthorItems, NameMsg(names[k]))]
    ensures CheckItems([], names).0 ==> CheckItems([], names).1 == []
    decreases |names|
  {
    if names != [] {
      CheckItemsFromClean(names[1..]);
      if NameOk(names[0]) {
        assert CheckItems([], names) == CheckItems([], names[1..]);
        forall k | 0 < k < |names| && !NameOk(names[k]) && (forall j :: 0 <= j < k ==> NameOk(names[j]))
          ensures CheckItems([], names).1 == [(AuthorItems, NameMsg(names[k]))]
        {
          assert names[1..][k - 1] == names[k];
          forall j | 0 <= j < k - 1 ensures NameOk(names[1..][j]) {
            assert names[1..][j] == names[j + 1];
          }
        }
        if forall i :: 0 <= i < |names[1..]| ==> NameOk(names[1..][i]) {
          forall i | 0 <= i < |names| ensures NameOk(names[i]) {
            if i > 0 { assert names[i] == names[1..][i - 1]; }
          }
        }
      }
    }
  }

  /** The whole entry validation shared by create and update: book checks,
      then (only if those passed) the author-count checks, then (only if
      those passed) the per-name loop. */
  function ValidateFields(v: Log, title: Text, publisher: Text, year: int, pages: int,
                          genres: Option<seq<Text>>, names: Option<seq<Text>>,
                          currentYear: int): (r: (bool, Log))
    ensures r.0 <==> Valid(v) && BookFieldsOk(title, publisher, year, pages, genres, currentYear)
                                && AuthorsOk(names)
    ensures !BookFieldsOk(title, publisher, year, pages, genres, currentYear)
            ==> !r.0 && BookKeysOnly(r.1, |v|)
    ensures Valid(v) && BookFieldsOk(title, publisher, year, pages, genres, currentYear)
            && names.Some? && MinAuthorCount <= |names.value| <= MaxAuthorCount
            ==> forall k :: 0 <= k < |names.value| && !NameOk(names.value[k])
                            && (forall j :: 0 <= j < k ==> NameOk(names.value[j]))
                            ==> r.1 == [(AuthorItems, NameMsg(names.value[k]))]
  {
    var v1 := CheckBook(v, title, publisher, year, pages, genres, currentYear);
    if !Valid(v1) then (false, v1)
    else
      var v2 := CheckAuthorCount(v1, names);
      if !Valid(v2) then (false, v2)
      else
        CheckItemsFromClean(names.GetOr([]));
        CheckItems(v2, names.GetOr([]))
  }

  /** The verdict and the log depend on the names only through their
      lengths and emptiness: two name lists that agree there validate alike. */
  lemma {:induction false} CheckItemsByLength(v: Log, a: seq<Text>, b: seq<Text>)
    requires |a| == |b|
    requires forall i :: 0 <= i < |a| ==> |a[i]| == |b[i]|
    ensures CheckItems(v, a) == CheckItems(v, b)
    decreases |a|
  {
    if a != [] {
      assert (a[0] == []) == (b[0] == []);
      CheckItemsByLength(Check(Check(v, a[0] != [], AuthorItems, Missing),
                               |a[0]| <= MaxNameBytes, AuthorItems, TooLong(MaxNameBytes)),
                         a[1..], b[1..]);
    }
  }
}
