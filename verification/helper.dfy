/** The application's small string and query-string helpers: the ASCII
    upper-casing used to sanitise author names, the list difference, and
    the query-string readers that fall back to a default. */
module Helper {
  import opened Base
  import opened Validation

  // ---------------------------------------------------------------- ToUpper

  const LowerA: byte := 97   // 'a'
  const LowerZ: byte := 122  // 'z'
  const CaseShift: byte := 32  // 'a' - 'A'

  predicate IsLower(b: byte) {
    LowerA <= b <= LowerZ
  }

  /** One byte through the loop body of `ToUpper`. */
  function UpperByte(b: byte): byte {
    if IsLower(b) then b - CaseShift else b
  }

  /** `App.ToUpper`: every byte in 'a'..'z' becomes the matching 'A'..'Z';
      every other byte, including each byte of a multi-byte character, is
      kept as it is. */
  function ToUpper(s: Text): (r: Text)
    ensures |r| == |s|
    ensures forall i :: 0 <= i < |s| ==> r[i] == UpperByte(s[i])
  {
    MapSeq(UpperByte, s)
  }

  /** No ASCII lower-case letter. */
  predicate NoLower(s: Text) {
    forall i :: 0 <= i < |s| ==> !IsLower(s[i])
  }

  /** The result of `ToUpper` has no lower-case letter left, and a string
      without one is left exactly as it is; together these make `ToUpper`
      idempotent. */
  lemma ToUpperNormalises(s: Text)
    ensures NoLower(ToUpper(s))
    ensures NoLower(s) ==> ToUpper(s) == s
    ensures ToUpper(ToUpper(s)) == ToUpper(s)
  {
    var u := ToUpper(s);
    assert NoLower(u);
  }

  /** A lower-case letter is moved exactly onto its upper-case partner, so
      `ToUpper` changes a byte only if it is a lower-case letter, and a
      non-empty name stays non-empty. */
  lemma ToUpperChangesOnlyLetters(s: Text, i: int)
    requires 0 <= i < |s|
    ensures ToUpper(s)[i] != s[i] <==> IsLower(s[i])
    ensures IsLower(s[i]) ==> 65 <= ToUpper(s)[i] <= 90 && ToUpper(s)[i] + CaseShift == s[i]
    ensures ToUpper(s) != []
  {
  }

  // ------------------------------------------------------- FindDiffOneInTwo

  /** The items of `xs` outside `drop`, in order, duplicates kept. */
  function Without(xs: seq<Text>, drop: set<Text>): (r: seq<Text>)
    ensures |r| <= |xs|
    ensures forall x :: multiset(r)[x] == if x in drop then 0 else multiset(xs)[x]
    decreases |xs|
  {
    if xs == [] then []
    else
      var rest := Without(xs[..|xs| - 1], drop);
      var x := xs[|xs| - 1];
      assert xs == xs[..|xs| - 1] + [x];
      if x in drop then rest else rest + [x]
  }

  /** The difference is empty exactly when every item of `xs` is dropped. */
  lemma WithoutEmpty(xs: seq<Text>, drop: set<Text>)
    ensures Without(xs, drop) == [] <==> Elems(xs) <= drop
  {
    var r := Without(xs, drop);
    if r == [] {
      forall x | x in Elems(xs) ensures x in drop {
        assert multiset(xs)[x] > 0;
        assert multiset(r)[x] == 0;
      }
    } else {
      assert multiset(r)[r[0]] > 0;
      assert r[0] !in drop && multiset(xs)[r[0]] > 0;
    }
  }

  /** `App.FindDiffOneInTwo`: first a set of the items of `list1`, then a
      scan of `list2` keeping what the set does not hold. */
  method FindDiffOneInTwo(list1: seq<Text>, list2: seq<Text>) returns (difference: seq<Text>)
    ensures difference == Without(list2, Elems(list1))
    ensures forall x :: multiset(difference)[x] == if x in list1 then 0 else multiset(list2)[x]
  {
    var seen: set<Text> := {};
    var i := 0;
    while i < |list1|
      invariant 0 <= i <= |list1|
      invariant seen == Elems(list1[..i])
    {
      assert list1[..i + 1] == list1[..i] + [list1[i]];
      seen := seen + {list1[i]};
      i := i + 1;
    }
    assert list1[..i] == list1;
    difference := [];
    var j := 0;
    while j < |list2|
      invariant 0 <= j <= |list2|
      invariant difference == Without(list2[..j], seen)
    {
      assert list2[..j + 1][..j] == list2[..j];
      if list2[j] !in seen {
        difference := difference + [list2[j]];
      }
      j := j + 1;
    }
    assert list2[..j] == list2;
  }

  // ------------------------------------------------------ query-string reads

  /** A parsed query string (`url.Values`): each key to its list of values. */
  type Query = map<Text, seq<Text>>

  /** `url.Values.Get`: the first value under `key`, or "" if there is none. */
  function Lookup(qs: Query, key: Text): Text {
    if key in qs && |qs[key]| > 0 then qs[key][0] else []
  }

  /** `App.ReadString`. */
  function ReadString(qs: Query, key: Text, defaultValue: Text): (r: Text)
    ensures Lookup(qs, key) == [] ==> r == defaultValue
    ensures Lookup(qs, key) != [] ==> r == Lookup(qs, key)
  {
    var s := Lookup(qs, key);
    if s == [] then defaultValue else s
  }

  /** Whatever the default, a present non-empty value is read back as is,
      and an absent key always yields the default. */
  lemma ReadStringRoundTrip(qs: Query, key: Text, value: Text, defaultValue: Text)
    requires value != []
    ensures ReadString(qs[key := [value]], key, defaultValue) == value
    ensures ReadString(qs - {key}, key, defaultValue) == defaultValue
  {
  }

  const Comma: byte := 44  // ','

  /** `strings.Split(s, sep)` for a one-byte separator: the pieces between
      separators, including empty ones. */
  function Split(s: Text, sep: byte): (r: seq<Text>)
    ensures |r| >= 1
    ensures forall i :: 0 <= i < |r| ==> sep !in r[i]
    decreases |s|
  {
    if s == [] then [[]]
    else
      var rest := Split(s[1..], sep);
      if s[0] == sep then [[]] + rest
      else [[s[0]] + rest[0]] + rest[1..]
  }

  /** `strings.Join(parts, sep)`. */
  function Join(parts: seq<Text>, sep: byte): Text
    decreases |parts|
  {
    if |parts| == 0 then []
    else if |parts| == 1 then parts[0]
    else parts[0] + [sep] + Join(parts[1..], sep)
  }

  /** Splitting and re-joining gives the original text back. */
  lemma {:induction false} JoinSplit(s: Text, sep: byte)
    ensures Join(Split(s, sep), sep) == s
    decreases |s|
  {
    if s != [] {
      var rest := Split(s[1..], sep);
      JoinSplit(s[1..], sep);
      if s[0] == sep {
        assert Split(s, sep) == [[]] + rest;
        assert ([[]] + rest)[1..] == rest;
      } else {
        var parts := Split(s, sep);
        assert parts == [[s[0]] + rest[0]] + rest[1..];
        if |rest| == 1 {
          assert Join(parts, sep) == [s[0]] + rest[0];
        } else {
          assert parts[1..] == rest[1..];
          assert Join(rest, sep) == rest[0] + [sep] + Join(rest[1..], sep);
          assert Join(parts, sep) == [s[0]] + rest[0] + [sep] + Join(rest[1..], sep);
        }
        assert s == [s[0]] + s[1..];
      }
    }
  }

  /** A separator-free piece splits to itself, and a piece followed by the
      separator splits off as the first element. */
  lemma {:induction false} SplitPrefix(a: Text, b: Text, sep: byte)
    requires sep !in a
    ensures Split(a, sep) == [a]
    ensures Split(a + [sep] + b, sep) == [a] + Split(b, sep)
    decreases |a|
  {
    if a != [] {
      SplitPrefix(a[1..], b, sep);
      assert (a + [sep] + b)[1..] == a[1..] + [sep] + b;
      assert a == [a[0]] + a[1..];
    } else {
      assert a + [sep] + b == [sep] + b;
      assert ([sep] + b)[1..] == b;
    }
  }

  /** Joining separator-free pieces and splitting again gives the pieces
      back: `Split` and `Join` are inverse on their natural domains. */
  lemma {:induction false} SplitJoin(parts: seq<Text>, sep: byte)
    requires |parts| >= 1
    requires forall i :: 0 <= i < |parts| ==> sep !in parts[i]
    ensures Split(Join(parts, sep), sep) == parts
    decreases |parts|
  {
    if |parts| == 1 {
      SplitPrefix(parts[0], [], sep);
    } else {
      SplitJoin(parts[1..], sep);
      SplitPrefix(parts[0], Join(parts[1..], sep), sep);
      assert parts == [parts[0]] + parts[1..];
    }
  }

  /** `App.ReadCSV`. */
  function ReadCSV(qs: Query, key: Text, defaultValue: seq<Text>): (r: seq<Text>)
    ensures Lookup(qs, key) == [] ==> r == defaultValue
    ensures Lookup(qs, key) != [] ==> |r| >= 1 && Join(r, Comma) == Lookup(qs, key)
    ensures Lookup(qs, key) != [] ==> forall i :: 0 <= i < |r| ==> Comma !in r[i]
  {
    var csv := Lookup(qs, key);
    if csv == [] then defaultValue
    else
      JoinSplit(csv, Comma);
      Split(csv, Comma)
  }

  // ----------------------------------------------------------------- ReadInt

  const Minus: byte := 45  // '-'
  const Plus: byte := 43   // '+'
  const Zero: byte := 48   // '0'
  const Nine: byte := 57   // '9'
  const MinInt64 := -0x8000_0000_0000_0000
  const MaxInt64 := 0x7fff_ffff_ffff_ffff

  predicate AllDigits(s: Text) {
    forall i :: 0 <= i < |s| ==> Zero <= s[i] <= Nine
  }

  /** The value of a run of decimal digits. */
  function DigitsValue(s: Text): nat
    requires AllDigits(s)
    decreases |s|
  {
    if s == [] then 0 else DigitsValue(s[..|s| - 1]) * 10 + (s[|s| - 1] - Zero) as int
  }

  /** What follows an optional leading sign. */
  function Unsigned(s: Text): Text {
    if s != [] && (s[0] == Minus || s[0] == Plus) then s[1..] else s
  }

  /** `strconv.Atoi` on a 64-bit platform: an optional sign, then one or
      more decimal digits, whose value must fit in an `int`. It answers
      exactly for such texts, with the digits' value, negated after a minus. */
  function Atoi(s: Text): (r: Option<int>)
    ensures r.Some? ==> MinInt64 <= r.value <= MaxInt64
    ensures r.Some? <==> && s != [] && Unsigned(s) != [] && AllDigits(Unsigned(s))
                         && var d: int := DigitsValue(Unsigned(s));
                            MinInt64 <= (if s[0] == Minus then -d else d) <= MaxInt64
    ensures r.Some? ==> r.value == if s[0] == Minus then 0 - DigitsValue(Unsigned(s)) else DigitsValue(Unsigned(s))
  {
    if s == [] then None
    else
      var digits := if s[0] == Minus || s[0] == Plus then s[1..] else s;
      if digits == [] || !AllDigits(digits) then None
      else
        var d: int := DigitsValue(digits);
        var n := if s[0] == Minus then -d else d;
        if MinInt64 <= n <= MaxInt64 then Some(n) else None
  }

  /** The decimal digits of `n`, without leading zeros. */
  function Digits(n: nat): (r: Text)
    ensures r != [] && AllDigits(r)
  {
    if n < 10 then [(Zero as int + n) as byte]
    else
      var r := Digits(n / 10) + [(Zero as int + n % 10) as byte];
      assert forall i :: 0 <= i < |r| - 1 ==> r[i] == Digits(n / 10)[i];
      r
  }

  /** The digits of `n` have the value `n`. */
  lemma {:induction false} DigitsValueOf(n: nat)
    ensures DigitsValue(Digits(n)) == n
  {
    var r := Digits(n);
    if n >= 10 {
      DigitsValueOf(n / 10);
      assert r[..|r| - 1] == Digits(n / 10);
      assert r[|r| - 1] as int - Zero as int == n % 10;
    } else {
      assert r[..|r| - 1] == [];
    }
  }

  /** `strconv.Itoa`: the decimal form of `i`, with a minus when negative. */
  function Format(i: int): (r: Text)
    ensures r != []
  {
    if i < 0 then [Minus] + Digits(-i) else Digits(i)
  }

  /** `Atoi` reads back every integer in range from its decimal form. */
  lemma AtoiFormat(i: int)
    requires MinInt64 <= i <= MaxInt64
    ensures Atoi(Format(i)) == Some(i)
  {
    var s := Format(i);
    if i < 0 {
      assert Unsigned(s) == Digits(-i);
      DigitsValueOf(-i);
    } else {
      assert Zero <= s[0] <= Nine;
      DigitsValueOf(i);
    }
  }

  /** `App.ReadInt`: the default for an absent or empty value; the default
      and a recorded error for a value that is not an integer. */
  function ReadInt(qs: Query, key: Text, defaultValue: int, v: Log): (r: (int, Log))
    ensures Lookup(qs, key) == [] ==> r == (defaultValue, v)
    ensures Lookup(qs, key) != [] && Atoi(Lookup(qs, key)).None?
            ==> r == (defaultValue, v + [(Query(key), NotInteger)])
    ensures Atoi(Lookup(qs, key)).Some? ==> r == (Atoi(Lookup(qs, key)).value, v)
  {
    var s := Lookup(qs, key);
    if s == [] then (defaultValue, v)
    else
      match Atoi(s)
      case None => (defaultValue, AddError(v, Query(key), NotInteger))
      case Some(i) => (i, v)
  }

  /** An integer in range written under `key` is read back, with no error
      recorded, whatever the default. */
  lemma ReadIntRoundTrip(qs: Query, key: Text, i: int, defaultValue: int, v: Log)
    requires MinInt64 <= i <= MaxInt64
    ensures ReadInt(qs[key := [Format(i)]], key, defaultValue, v) == (i, v)
  {
    AtoiFormat(i);
  }

  /** A recorded error from `ReadInt` always means the value was present but
      unparsable, and the default is what comes back. */
  lemma ReadIntErrorMeansDefault(qs: Query, key: Text, defaultValue: int, v: Log)
    ensures ReadInt(qs, key, defaultValue, v).1 != v
            <==> Lookup(qs, key) != [] && Atoi(Lookup(qs, key)).None?
    ensures ReadInt(qs, key, defaultValue, v).1 != v
            ==> ReadInt(qs, key, defaultValue, v).0 == defaultValue
  {
  }
}
