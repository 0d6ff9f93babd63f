/** Shared vocabulary: bytes and byte strings, optional and fallible values,
    and the few sequence facts every other module leans on. */
module Base {

  /** A Go `byte`; Go strings are byte sequences and `len` counts bytes. */
  newtype byte = b: int | 0 <= b < 256

  /** A Go `string`, as the bytes it holds. */
  type Text = seq<byte>

  /** A Go pointer or slice that may be nil. */
  datatype Option<T> = None | Some(value: T) {
    function GetOr(default: T): T {
      if Some? then value else default
    }
  }

  /** The `error` return of a Go function: nil (`Ok`) or an error value. */
  datatype Result<T, E> = Ok(value: T) | Err(error: E)

  /** The elements of a sequence, as a set. */
  function Elems<T>(s: seq<T>): set<T> {
    set x | x in s
  }

  /** No element occurs twice. */
  predicate NoDup<T(==)>(s: seq<T>) {
    forall i, j :: 0 <= i < j < |s| ==> s[i] != s[j]
  }

  /** The sequence with every repeat dropped: each element keeps its first
      place. */
  function Dedup<T(==)>(s: seq<T>): (r: seq<T>)
    ensures NoDup(r) && Elems(r) == Elems(s) && |r| <= |s|
  {
    if s == [] then []
    else
      var init, last := s[..|s|-1], s[|s|-1];
      assert s == init + [last];
      ElemsAppend(init, last);
      ElemsAppend(Dedup(init), last);
      if last in init then Dedup(init) else Dedup(init) + [last]
  }

  lemma ElemsAppend<T>(s: seq<T>, x: T)
    ensures Elems(s + [x]) == Elems(s) + {x}
  {
    forall y | y in Elems(s + [x]) ensures y in Elems(s) + {x} {
      var i :| 0 <= i < |s + [x]| && (s + [x])[i] == y;
    }
  }

  /** A sequence without repeats is its own deduplication. */
  lemma {:induction false} DedupDistinct<T>(s: seq<T>)
    requires NoDup(s)
    ensures Dedup(s) == s
  {
    if s != [] {
      var init := s[..|s|-1];
      assert NoDup(init);
      DedupDistinct(init);
    }
  }

  /** 1 when `b` holds, else 0: used to count what a step adds or removes. */
  function Ind(b: bool): int {
    if b then 1 else 0
  }

  /** Some listing of a finite set, in an order nobody promises. This stands
      for every order the program does not control: Go map iteration and
      the row order of an SQL aggregate or of `QueryRow`. */
  ghost function Enumerate<T>(s: set<T>): (r: seq<T>)
    ensures NoDup(r)
    ensures Elems(r) == s
    ensures |r| == |s|
    decreases |s|
  {
    if s == {} then []
    else
      var x :| x in s;
      var rest := Enumerate(s - {x});
      assert x !in Elems(rest);
      assert Elems([x] + rest) == {x} + Elems(rest);
      [x] + rest
  }

  /** `f` applied to every element, in order. */
  function MapSeq<A, B>(f: A -> B, s: seq<A>): (r: seq<B>)
    ensures |r| == |s|
    ensures forall i :: 0 <= i < |s| ==> r[i] == f(s[i])
  {
    seq(|s|, i requires 0 <= i < |s| => f(s[i]))
  }

  /** `f` is injective on the elements of `s`. */
  ghost predicate InjectiveOn<A, B>(f: A -> B, s: set<A>) {
    forall x, y :: x in s && y in s && f(x) == f(y) ==> x == y
  }

  /** The image of a set under a function. */
  ghost function Image<A, B>(f: A -> B, s: set<A>): set<B> {
    set x | x in s :: f(x)
  }

  /** Mapping a sequence and then taking its elements is taking the image
      of its elements. */
  lemma ElemsOfMap<A, B>(f: A -> B, s: seq<A>)
    ensures Elems(MapSeq(f, s)) == Image(f, Elems(s))
  {
    var m := MapSeq(f, s);
    forall y | y in Elems(m) ensures y in Image(f, Elems(s)) {
      var i :| 0 <= i < |m| && m[i] == y;
      assert s[i] in Elems(s);
    }
    forall y | y in Image(f, Elems(s)) ensures y in Elems(m) {
      var x :| x in Elems(s) && f(x) == y;
      var i :| 0 <= i < |s| && s[i] == x;
      assert m[i] == y;
    }
  }

  /** An injective map keeps a duplicate-free sequence duplicate-free. */
  lemma NoDupMap<A, B>(f: A -> B, s: seq<A>)
    requires NoDup(s)
    requires InjectiveOn(f, Elems(s))
    ensures NoDup(MapSeq(f, s))
  {
    var m := MapSeq(f, s);
    forall i, j | 0 <= i < j < |m| ensures m[i] != m[j] {
      assert s[i] in Elems(s) && s[j] in Elems(s);
    }
  }

  /** On a set where `f` is injective, the image of a difference is the
      difference of the images. */
  lemma ImageDiff<A, B>(f: A -> B, a: set<A>, b: set<A>)
    requires InjectiveOn(f, a + b)
    ensures Image(f, a - b) == Image(f, a) - Image(f, b)
  {
    forall y | y in Image(f, a) - Image(f, b) ensures y in Image(f, a - b) {
      var x :| x in a && f(x) == y;
      assert x in b ==> f(x) in Image(f, b);
    }
  }

  /** A preimage of a point of an image. */
  lemma Preimage<A, B>(f: A -> B, s: set<A>, y: B) returns (x: A)
    requires y in Image(f, s)
    ensures x in s && f(x) == y
  {
    x :| x in s && f(x) == y;
  }

  /** An injective function keeps the size of a set. */
  lemma {:induction false} InjectiveImageCard<A, B>(f: A -> B, s: set<A>)
    requires InjectiveOn(f, s)
    ensures |Image(f, s)| == |s|
    decreases |s|
  {
    if s != {} {
      var x :| x in s;
      var rest := s - {x};
      InjectiveImageCard(f, rest);
      assert Image(f, s) == Image(f, rest) + {f(x)};
      assert f(x) !in Image(f, rest);
    }
  }

  /** A listing without duplicates is as long as the set it lists. */
  lemma {:induction false} DistinctCard<T>(s: seq<T>)
    requires NoDup(s)
    ensures |Elems(s)| == |s|
    decreases |s|
  {
    if s != [] {
      DistinctCard(s[1..]);
      assert Elems(s) == {s[0]} + Elems(s[1..]);
      assert s[0] !in Elems(s[1..]);
    }
  }
}
