/** The catalogue's list helpers: query-filter validation, the old/new
    author-name diff that drives the reference-count ledger, and element-wise
    content keys.

    `hashString` (SHA-1, hex-encoded) is never modelled: every member that
    hashes takes the digest function `H` as a parameter, so every property
    here holds whatever `H` is. */
module Filters {
  import opened Base
  import opened Validation

  // ------------------------------------------------------------ ValidateFilters

  /** Listing filters: page number, page size, sort key and the allowed keys. */
  datatype Filters = Filters(page: int, pageSize: int, sort: Text, sortSafeList: seq<Text>)

  const MinPage := 0
  const MaxPage := 1000000
  const MinPageSize := 0
  const MaxPageSize := 30

  /** `Filters.ValidateFilters` as written: the two "page_size" checks test
      `Page` again (with the page-size bounds only in their messages), so the
      page size is never looked at. */
  function ValidateFilters(f: Filters, v: Log): (r: (bool, Log))
    ensures r.0 <==> Valid(v) && MinPage < f.page <= MaxPage && f.sort in f.sortSafeList
    ensures r.0 ==> r.1 == v
  {
    var v1 := Check(v, f.page > MinPage, Page, MustExceed(MinPage));
    var v2 := Check(v1, f.page <= MaxPage, Page, MustBeLess(MaxPage));
    var v3 := Check(v2, f.page > MinPage, PageSize, MustExceed(MinPageSize));
    var v4 := Check(v3, f.page <= MaxPage, PageSize, MustBeLess(MaxPageSize));
    var v5 := Check(v4, f.sort in f.sortSafeList, Sort, InvalidChoice);
    (Valid(v5), v5)
  }

  /** The page size never changes the verdict: a page size of a million is
      accepted as readily as one of ten. */
  lemma ValidateFiltersIgnoresPageSize(f: Filters, v: Log, size: int)
    ensures ValidateFilters(f.(pageSize := size), v) == ValidateFilters(f, v)
    ensures var empty: Text := []; ValidateFilters(Filters(1, 1000000, empty, [empty]), []).0
  {
    var empty: Text := [];
    assert empty in [empty];
  }

  /** The filter validation the messages describe: the page-size checks
      test `PageSize` against 0 and 30. */
  function ValidateFiltersIntended(f: Filters, v: Log): (r: (bool, Log))
    ensures r.0 <==> && Valid(v) && MinPage < f.page <= MaxPage
                     && MinPageSize < f.pageSize <= MaxPageSize
                     && f.sort in f.sortSafeList
    ensures f.page == 1 && f.sort in f.sortSafeList && Valid(v)
            ==> (r.0 <==> MinPageSize < f.pageSize <= MaxPageSize)
  {
    var v1 := Check(v, f.page > MinPage, Page, MustExceed(MinPage));
    var v2 := Check(v1, f.page <= MaxPage, Page, MustBeLess(MaxPage));
    var v3 := Check(v2, f.pageSize > MinPageSize, PageSize, MustExceed(MinPageSize));
    var v4 := Check(v3, f.pageSize <= MaxPageSize, PageSize, MustBeLess(MaxPageSize));
    var v5 := Check(v4, f.sort in f.sortSafeList, Sort, InvalidChoice);
    (Valid(v5), v5)
  }

  // ----------------------------------------------------------------- DiffArrays

  /** `xs` is `a` and `b` interleaved: every element of `xs` went to exactly
      one of them, and each keeps the order it had in `xs`. */
  ghost predicate Interleaves(xs: seq<Text>, a: seq<Text>, b: seq<Text>)
    decreases |xs|
  {
    if xs == [] then a == [] && b == []
    else
      var x := xs[|xs| - 1];
      || (a != [] && a[|a| - 1] == x && Interleaves(xs[..|xs| - 1], a[..|a| - 1], b))
      || (b != [] && b[|b| - 1] == x && Interleaves(xs[..|xs| - 1], a, b[..|b| - 1]))
  }

  /** An interleaving accounts for every element exactly once. */
  lemma {:induction false} InterleavesCounts(xs: seq<Text>, a: seq<Text>, b: seq<Text>)
    requires Interleaves(xs, a, b)
    ensures |a| + |b| == |xs|
    ensures multiset(a) + multiset(b) == multiset(xs)
    decreases |xs|
  {
    if xs != [] {
      var x := xs[|xs| - 1];
      assert xs == xs[..|xs| - 1] + [x];
      if a != [] && a[|a| - 1] == x && Interleaves(xs[..|xs| - 1], a[..|a| - 1], b) {
        InterleavesCounts(xs[..|xs| - 1], a[..|a| - 1], b);
        assert a == a[..|a| - 1] + [x];
      } else {
        InterleavesCounts(xs[..|xs| - 1], a, b[..|b| - 1]);
        assert b == b[..|b| - 1] + [x];
      }
    }
  }

  /** When nothing went to `b`, `a` is `xs` itself. */
  lemma {:induction false} InterleavesAlone(xs: seq<Text>, a: seq<Text>)
    requires Interleaves(xs, a, [])
    ensures a == xs
    decreases |xs|
  {
    if xs != [] {
      InterleavesAlone(xs[..|xs| - 1], a[..|a| - 1]);
      assert a == a[..|a| - 1] + [a[|a| - 1]];
      assert xs == xs[..|xs| - 1] + [xs[|xs| - 1]];
    }
  }

  /** The state of the scan over the new names: what went to `common`, what
      went to `exclusiveNew`, and the old names still in the presence map. */
  datatype Scan = Scan(common: seq<Text>, exclusiveNew: seq<Text>, pending: set<Text>)

  /** What the scan promises after visiting `xs`. */
  ghost predicate ScanInvariant(present: set<Text>, xs: seq<Text>, st: Scan) {
    && Interleaves(xs, st.common, st.exclusiveNew)
    && st.pending == present - Elems(st.common)
    && (forall y :: multiset(st.common)[y] == Ind(y in present && y in xs))
    && (forall y :: multiset(st.exclusiveNew)[y] == multiset(xs)[y] - Ind(y in present && y in xs))
  }

  /** One step of the scan: the name is routed to `common` if the presence
      map still holds it, and to `exclusiveNew` otherwise. */
  function ScanStep(st: Scan, x: Text): Scan {
    if x in st.pending then Scan(st.common + [x], st.exclusiveNew, st.pending - {x})
    else Scan(st.common, st.exclusiveNew + [x], st.pending)
  }

  /** One step keeps the scan's promise, conjunct by conjunct. */
  lemma ScanStepKeepsInvariant(present: set<Text>, xs: seq<Text>, st: Scan)
    requires xs != [] && ScanInvariant(present, xs[..|xs| - 1], st)
    ensures ScanInvariant(present, xs, ScanStep(st, xs[|xs| - 1]))
  {
    var init, x := xs[..|xs| - 1], xs[|xs| - 1];
    assert xs == init + [x];
    ScanStepInterleaves(xs, st);
    ScanStepPending(present, init, x, st);
    ScanStepCommon(present, init, x, st);
    ScanStepExclusive(present, init, x, st);
  }

  /** Before any name, nothing is routed and every old name is pending. */
  lemma ScanStartInvariant(present: set<Text>)
    ensures ScanInvariant(present, [], Scan([], [], present))
  {
  }

  /** The step appends the name to exactly one side, so the sides stay an
      interleaving of the names visited. */
  lemma ScanStepInterleaves(xs: seq<Text>, st: Scan)
    requires xs != [] && Interleaves(xs[..|xs| - 1], st.common, st.exclusiveNew)
    ensures Interleaves(xs, ScanStep(st, xs[|xs| - 1]).common, ScanStep(st, xs[|xs| - 1]).exclusiveNew)
  {
    var r := ScanStep(st, xs[|xs| - 1]);
    if xs[|xs| - 1] in st.pending {
      assert r.common[..|r.common| - 1] == st.common;
    } else {
      assert r.exclusiveNew[..|r.exclusiveNew| - 1] == st.exclusiveNew;
    }
  }

  /** Appending `x` adds it to the members and one to its count. */
  lemma AppendCounts(init: seq<Text>, x: Text)
    ensures forall y :: (y in init + [x]) == (y in init || y == x)
    ensures forall y :: multiset(init + [x])[y] == multiset(init)[y] + Ind(y == x)
  {
  }

  /** The step takes a routed name out of the presence map. */
  lemma ScanStepPending(present: set<Text>, init: seq<Text>, x: Text, st: Scan)
    requires ScanInvariant(present, init, st)
    ensures ScanStep(st, x).pending == present - Elems(ScanStep(st, x).common)
  {
    var r := ScanStep(st, x);
    if x in st.pending {
      ElemsAppend(st.common, x);
    }
  }

  /** The step adds a name to `common` on its first old occurrence only. */
  lemma ScanStepCommon(present: set<Text>, init: seq<Text>, x: Text, st: Scan)
    requires ScanInvariant(present, init, st)
    ensures forall y :: multiset(ScanStep(st, x).common)[y] == Ind(y in present && y in init + [x])
  {
    var r := ScanStep(st, x);
    AppendCounts(init, x);
    assert x in Elems(st.common) <==> multiset(st.common)[x] > 0;
    if x in st.pending {
      assert x in present && x !in init;
      AppendCounts(st.common, x);
    } else {
      assert x in present ==> x in init;
    }
  }

  /** Every other occurrence goes to `exclusiveNew`. */
  lemma ScanStepExclusive(present: set<Text>, init: seq<Text>, x: Text, st: Scan)
    requires ScanInvariant(present, init, st)
    ensures forall y :: multiset(ScanStep(st, x).exclusiveNew)[y]
                        == multiset(init + [x])[y] - Ind(y in present && y in init + [x])
  {
    var r := ScanStep(st, x);
    AppendCounts(init, x);
    assert x in Elems(st.common) <==> multiset(st.common)[x] > 0;
    if x in st.pending {
      assert x in present && x !in init;
    } else {
      assert x in present ==> x in init;
      AppendCounts(st.exclusiveNew, x);
    }
  }

  /** The scan loop of `DiffArrays` after it has visited `xs`. */
  function ScanNew(present: set<Text>, xs: seq<Text>): (r: Scan)
    ensures ScanInvariant(present, xs, r)
    decreases |xs|
  {
    if xs == [] then ScanStartInvariant(present); Scan([], [], present)
    else
      var st := ScanNew(present, xs[..|xs| - 1]);
      ScanStepKeepsInvariant(present, xs, st);
      ScanStep(st, xs[|xs| - 1])
  }

  /** A multiplicity of at most one everywhere means no duplicates. */
  lemma NoDupFromCounts(s: seq<Text>)
    requires forall x :: multiset(s)[x] <= 1
    ensures NoDup(s)
  {
    forall i, j | 0 <= i < j < |s| ensures s[i] != s[j] {
      assert s[i] in s[..j];
      assert s[..j + 1] == s[..j] + [s[j]];
      assert multiset(s[..j + 1])[s[i]] == multiset(s[..j])[s[i]] + Ind(s[j] == s[i]);
      assert s == s[..j + 1] + s[j + 1..];
      assert multiset(s)[s[i]] >= multiset(s[..j + 1])[s[i]];
    }
  }

  /** A duplicate-free sequence holds each of its elements once. */
  lemma CountsFromNoDup(s: seq<Text>)
    requires NoDup(s)
    ensures forall x :: multiset(s)[x] == Ind(x in s)
    decreases |s|
  {
    if s != [] {
      CountsFromNoDup(s[1..]);
      assert s == [s[0]] + s[1..];
      assert s[0] !in s[1..];
    }
  }

  /** A sequence with no elements is empty. */
  lemma EmptyElems(s: seq<Text>)
    ensures Elems(s) == {} ==> s == []
  {
    if s != [] {
      assert s[0] in Elems(s);
    }
  }

  /** The three outputs of `DiffArrays`. */
  datatype Diff = Diff(common: seq<Text>, exclusiveOld: seq<Text>, exclusiveNew: seq<Text>)

  /** `DiffArrays(oldArr, newArr)`: the presence map of the old names, the
      scan of the new names, and the names left in the map, listed in the
      map's unspecified iteration order. */
  ghost function DiffArrays(oldArr: seq<Text>, newArr: seq<Text>): (r: Diff)
    ensures Interleaves(newArr, r.common, r.exclusiveNew)
    ensures NoDup(r.common) && Elems(r.common) == Elems(oldArr) * Elems(newArr)
    ensures NoDup(r.exclusiveOld) && Elems(r.exclusiveOld) == Elems(oldArr) - Elems(r.common)
    ensures forall x :: multiset(r.exclusiveNew)[x]
                        == multiset(newArr)[x] - Ind(x in oldArr && x in newArr)
  {
    var st := ScanNew(Elems(oldArr), newArr);
    ScanCommon(Elems(oldArr), newArr, st);
    Diff(st.common, Enumerate(st.pending), st.exclusiveNew)
  }

  /** The names the scan routes to `common` are the old names it met, each
      once. */
  lemma ScanCommon(present: set<Text>, xs: seq<Text>, st: Scan)
    requires ScanInvariant(present, xs, st)
    ensures NoDup(st.common) && Elems(st.common) == present * Elems(xs)
  {
    NoDupFromCounts(st.common);
    forall x ensures x in Elems(st.common) <==> x in present * Elems(xs) {
      assert x in Elems(st.common) <==> multiset(st.common)[x] > 0;
    }
  }

  /** Every new name lands in exactly one of `common` and `exclusiveNew`. */
  lemma DiffRoutesEveryName(oldArr: seq<Text>, newArr: seq<Text>)
    ensures var d := DiffArrays(oldArr, newArr);
            && |d.common| + |d.exclusiveNew| == |newArr|
            && multiset(d.common) + multiset(d.exclusiveNew) == multiset(newArr)
  {
    var d := DiffArrays(oldArr, newArr);
    InterleavesCounts(newArr, d.common, d.exclusiveNew);
  }

  /** `common` and `exclusiveOld` split the old names between them. */
  lemma DiffPartitionsOld(oldArr: seq<Text>, newArr: seq<Text>)
    ensures var d := DiffArrays(oldArr, newArr);
            && Elems(d.common) + Elems(d.exclusiveOld) == Elems(oldArr)
            && Elems(d.common) !! Elems(d.exclusiveOld)
            && Elems(d.exclusiveOld) == Elems(oldArr) - Elems(newArr)
  {
  }

  /** With no repeated new name, `exclusiveNew` is exactly the new names
      that are not old ones, each once. */
  lemma DiffOnDistinctNew(oldArr: seq<Text>, newArr: seq<Text>)
    requires NoDup(newArr)
    ensures var d := DiffArrays(oldArr, newArr);
            && NoDup(d.exclusiveNew)
            && Elems(d.exclusiveNew) == Elems(newArr) - Elems(oldArr)
            && Elems(d.common) + Elems(d.exclusiveNew) == Elems(newArr)
  {
    var d := DiffArrays(oldArr, newArr);
    ExclusiveNewOnce(oldArr, newArr);
    ExactlyOnce(d.exclusiveNew, Elems(newArr) - Elems(oldArr));
  }

  /** Over a duplicate-free new list, each new name that is not old is in
      `exclusiveNew` once, and nothing else is. */
  lemma ExclusiveNewOnce(oldArr: seq<Text>, newArr: seq<Text>)
    requires NoDup(newArr)
    ensures forall x :: multiset(DiffArrays(oldArr, newArr).exclusiveNew)[x]
                        == Ind(x in Elems(newArr) - Elems(oldArr))
  {
    CountsFromNoDup(newArr);
  }

  /** A sequence holding each member of `s` once and nothing else lists `s`
      without duplicates. */
  lemma ExactlyOnce(e: seq<Text>, s: set<Text>)
    requires forall x :: multiset(e)[x] == Ind(x in s)
    ensures NoDup(e) && Elems(e) == s
  {
    NoDupFromCounts(e);
    forall x ensures x in Elems(e) <==> x in s {
      assert x in Elems(e) <==> multiset(e)[x] > 0;
    }
  }

  /** A name repeated in the new list that is also an old name goes to
      `common` once and then to `exclusiveNew`. */
  lemma DiffRepeatedOldName(a: Text)
    ensures DiffArrays([a], [a, a]).common == [a]
    ensures DiffArrays([a], [a, a]).exclusiveNew == [a]
    ensures DiffArrays([a], [a, a]).exclusiveOld == []
  {
    assert Elems([a]) == {a};
    assert [a, a][..1] == [a] && [a][..0] == [];
    var s0 := ScanNew({a}, []);
    assert s0 == Scan([], [], {a});
    var s1 := ScanNew({a}, [a]);
    assert s1 == ScanStep(s0, a) == Scan([a], [], {});
    assert ScanNew({a}, [a, a]) == ScanStep(s1, a) == Scan([a], [a], {});
  }

  /** One stored name replaced by another: the old one is left over and
      the new one is exclusive. */
  lemma DiffReplaced(a: Text, b: Text)
    requires a != b
    ensures DiffArrays([a], [b]) == Diff([], [a], [b])
  {
    assert Elems([a]) == {a};
    ScanOther(a, b);
    EnumerateOne(a);
  }

  /** Scanning a name that is not the stored one routes it to the new side. */
  lemma ScanOther(a: Text, b: Text)
    requires a != b
    ensures ScanNew({a}, [b]) == Scan([], [b], {a})
  {
    assert [b][..0] == [];
    assert ScanNew({a}, []) == Scan([], [], {a});
  }

  /** A one-name set is listed as that name. */
  lemma EnumerateOne(a: Text)
    ensures Enumerate({a}) == [a]
  {
    var r := Enumerate({a});
    assert r[0] in Elems(r);
  }

  /** Diffing a duplicate-free list against itself changes nothing: every
      name is common, in order, and nothing is exclusive. */
  lemma DiffSame(a: seq<Text>)
    requires NoDup(a)
    ensures DiffArrays(a, a) == Diff(a, [], [])
  {
    var d := DiffArrays(a, a);
    CountsFromNoDup(a);
    assert multiset(d.exclusiveNew) == multiset{};
    assert |d.exclusiveNew| == |multiset(d.exclusiveNew)| == 0;
    InterleavesAlone(a, d.common);
    EmptyElems(d.exclusiveOld);
  }

  // ----------------------------------------------------------------- HashArrays

  /** `HashArrays(arr1, arr2)`: the content key of every element of each. */
  function HashArrays(arr1: seq<Text>, arr2: seq<Text>, H: Text -> Text): (r: (seq<Text>, seq<Text>))
    ensures |r.0| == |arr1| && forall i :: 0 <= i < |arr1| ==> r.0[i] == H(arr1[i])
    ensures |r.1| == |arr2| && forall i :: 0 <= i < |arr2| ==> r.1[i] == H(arr2[i])
  {
    (MapSeq(H, arr1), MapSeq(H, arr2))
  }
}
