/**
 * The orderings `refreshJobs` sorts by, and the stable sort of `List.sort`:
 * strings compare as `String.compareTo` does, dates as `LocalDate.compareTo`.
 */
module Sorting {
  import opened Calendar
  import opened Sequences

  /** `a.compareTo(b) < 0` for strings: the first differing character decides, else the shorter string comes first. */
  predicate TextLess(a: string, b: string) {
    if a == [] then b != []
    else if b == [] then false
    else if a[0] != b[0] then a[0] < b[0]
    else TextLess(a[1..], b[1..])
  }

  lemma {:induction false} TextLessIsIrreflexive(a: string)
    ensures !TextLess(a, a)
  {
    if a != [] {
      TextLessIsIrreflexive(a[1..]);
    }
  }

  lemma {:induction false} TextLessIsTransitive(a: string, b: string, c: string)
    requires TextLess(a, b) && TextLess(b, c)
    ensures TextLess(a, c)
  {
    if a != [] && b != [] && c != [] && a[0] == b[0] && b[0] == c[0] {
      TextLessIsTransitive(a[1..], b[1..], c[1..]);
    }
  }

  lemma {:induction false} TextLessIsTotal(a: string, b: string)
    ensures a == b || TextLess(a, b) || TextLess(b, a)
  {
    if a != [] && b != [] && a[0] == b[0] {
      TextLessIsTotal(a[1..], b[1..]);
      if a[1..] == b[1..] {
        assert a == [a[0]] + a[1..] && b == [b[0]] + b[1..];
      }
    }
  }

  /**
   * The value a job is compared by. `NoDay` is a null deadline, which the
   * source never gets to order: comparing it throws.
   */
  datatype SortKey = Text(text: string) | Day(date: Date) | NoDay

  function Rank(k: SortKey): nat {
    match k
    case NoDay => 0
    case Day(_) => 1
    case Text(_) => 2
  }

  /** The comparator's "comes strictly before". Keys of different kinds are ordered by kind. */
  predicate Less(a: SortKey, b: SortKey) {
    if a.Text? && b.Text? then TextLess(a.text, b.text)
    else if a.Day? && b.Day? then Before(a.date, b.date)
    else Rank(a) < Rank(b)
  }

  /** `Less` is a strict total order. */
  lemma LessIsStrictTotalOrder(a: SortKey, b: SortKey, c: SortKey)
    ensures !Less(a, a)
    ensures Less(a, b) && Less(b, c) ==> Less(a, c)
    ensures a == b || Less(a, b) || Less(b, a)
  {
    if a.Text? {
      TextLessIsIrreflexive(a.text);
      if b.Text? {
        TextLessIsTotal(a.text, b.text);
        if c.Text? && Less(a, b) && Less(b, c) {
          TextLessIsTransitive(a.text, b.text, c.text);
        }
      }
    }
  }

  /** Every element's key is not below any earlier element's key. */
  predicate Sorted<T>(s: seq<T>, key: T -> SortKey) {
    forall i, j :: 0 <= i < j < |s| ==> !Less(key(s[j]), key(s[i]))
  }

  /** The elements whose key is `k`, in order. */
  function WithKey<T>(s: seq<T>, key: T -> SortKey, k: SortKey): seq<T> {
    if s == [] then []
    else WithKey(s[..|s| - 1], key, k) + (if key(s[|s| - 1]) == k then [s[|s| - 1]] else [])
  }

  /** Put `x` after every element whose key is not above its own, scanning from the end. */
  function Insert<T>(s: seq<T>, x: T, key: T -> SortKey): seq<T> {
    if s == [] then [x]
    else if Less(key(x), key(s[|s| - 1])) then Insert(s[..|s| - 1], x, key) + [s[|s| - 1]]
    else s + [x]
  }

  /** The stable insertion sort that `List.sort` with `Comparator.comparing(key)` agrees with. */
  function SortBy<T>(s: seq<T>, key: T -> SortKey): seq<T> {
    if s == [] then []
    else Insert(SortBy(s[..|s| - 1], key), s[|s| - 1], key)
  }

  lemma {:induction false} InsertIsPermutation<T>(s: seq<T>, x: T, key: T -> SortKey)
    ensures multiset(Insert(s, x, key)) == multiset(s) + multiset{x}
  {
    if s != [] && Less(key(x), key(s[|s| - 1])) {
      var init := s[..|s| - 1];
      InsertIsPermutation(init, x, key);
      InitLast(s);
    }
  }

  lemma LessIsAsymmetric(a: SortKey, b: SortKey)
    ensures Less(a, b) ==> !Less(b, a)
  {
    LessIsStrictTotalOrder(a, b, a);
  }

  /** "Not after" is transitive. */
  lemma NotLessIsTransitive(a: SortKey, b: SortKey, c: SortKey)
    ensures !Less(b, a) && !Less(c, b) ==> !Less(c, a)
  {
    LessIsStrictTotalOrder(a, b, c);
    LessIsStrictTotalOrder(c, a, b);
    LessIsStrictTotalOrder(b, c, a);
  }

  lemma {:induction false} InsertKeepsSorted<T>(s: seq<T>, x: T, key: T -> SortKey)
    requires Sorted(s, key)
    ensures Sorted(Insert(s, x, key), key)
  {
    if s == [] {
      return;
    }
    var init, last := s[..|s| - 1], s[|s| - 1];
    if Less(key(x), key(last)) {
      assert Sorted(init, key);
      InsertKeepsSorted(init, x, key);
      var r := Insert(init, x, key);
      InsertStaysBelow(init, x, last, key);
      SortedSnoc(r, last, key);
    } else {
      forall i | 0 <= i < |s|
        ensures !Less(key(x), key(s[i]))
      {
        NotLessIsTransitive(key(s[i]), key(last), key(x));
      }
      SortedSnoc(s, x, key);
    }
  }

  /** When neither `x` nor any element of `s` is above `y`, no element of `Insert(s, x, key)` is. */
  lemma InsertStaysBelow<T>(s: seq<T>, x: T, y: T, key: T -> SortKey)
    requires forall i :: 0 <= i < |s| ==> !Less(key(y), key(s[i]))
    requires Less(key(x), key(y))
    ensures forall i :: 0 <= i < |Insert(s, x, key)| ==> !Less(key(y), key(Insert(s, x, key)[i]))
  {
    var r := Insert(s, x, key);
    InsertIsPermutation(s, x, key);
    LessIsAsymmetric(key(x), key(y));
    forall i | 0 <= i < |r|
      ensures !Less(key(y), key(r[i]))
    {
      assert r[i] in multiset(r);
      if r[i] != x {
        assert r[i] in multiset(s);
        var k :| 0 <= k < |s| && s[k] == r[i];
      }
    }
  }

  /** A sorted sequence stays sorted with an element no earlier element is above. */
  lemma SortedSnoc<T>(s: seq<T>, x: T, key: T -> SortKey)
    requires Sorted(s, key)
    requires forall i :: 0 <= i < |s| ==> !Less(key(x), key(s[i]))
    ensures Sorted(s + [x], key)
  {
    var t := s + [x];
    forall i, j | 0 <= i < j < |t|
      ensures !Less(key(t[j]), key(t[i]))
    {
      assert t[i] == s[i];
    }
  }

  lemma WithKeySnoc<T>(s: seq<T>, y: T, key: T -> SortKey, k: SortKey)
    ensures WithKey(s + [y], key, k) == WithKey(s, key, k) + (if key(y) == k then [y] else [])
  {
    assert (s + [y])[..|s|] == s;
  }

  /** Inserting `x` only appends it to the elements with its own key. */
  lemma {:induction false} InsertKeepsEqualKeysInOrder<T>(s: seq<T>, x: T, key: T -> SortKey, k: SortKey)
    ensures WithKey(Insert(s, x, key), key, k) == WithKey(s, key, k) + (if key(x) == k then [x] else [])
  {
    if s == [] {
      WithKeySnoc([], x, key, k);
      assert [] + [x] == [x];
    } else if Less(key(x), key(s[|s| - 1])) {
      InsertKeepsEqualKeysInOrder(s[..|s| - 1], x, key, k);
      InsertBeforeLast(s, x, key, k);
    } else {
      WithKeySnoc(s, x, key, k);
    }
  }

  /** The step of the previous lemma when `x` goes before the last element, whose key differs from its own. */
  lemma InsertBeforeLast<T>(s: seq<T>, x: T, key: T -> SortKey, k: SortKey)
    requires s != [] && Less(key(x), key(s[|s| - 1]))
    requires var init := s[..|s| - 1];
      WithKey(Insert(init, x, key), key, k) == WithKey(init, key, k) + (if key(x) == k then [x] else [])
    ensures WithKey(Insert(s, x, key), key, k) == WithKey(s, key, k) + (if key(x) == k then [x] else [])
  {
    var init, last := s[..|s| - 1], s[|s| - 1];
    InitLast(s);
    WithKeySnoc(Insert(init, x, key), last, key, k);
    WithKeySnoc(init, last, key, k);
    LessIsStrictTotalOrder(key(x), key(last), key(x));
  }

  /** `SortBy` sorts. */
  lemma {:induction false} SortByIsSorted<T>(s: seq<T>, key: T -> SortKey)
    ensures Sorted(SortBy(s, key), key)
  {
    if s != [] {
      SortByIsSorted(s[..|s| - 1], key);
      InsertKeepsSorted(SortBy(s[..|s| - 1], key), s[|s| - 1], key);
    }
  }

  /** `SortBy` only reorders. */
  lemma {:induction false} SortByIsPermutation<T>(s: seq<T>, key: T -> SortKey)
    ensures multiset(SortBy(s, key)) == multiset(s)
  {
    if s != [] {
      var init := s[..|s| - 1];
      SortByIsPermutation(init, key);
      InsertIsPermutation(SortBy(init, key), s[|s| - 1], key);
      InitLast(s);
    }
  }

  /** `SortBy` is stable: elements with equal keys keep their relative order. */
  lemma {:induction false} SortByIsStable<T>(s: seq<T>, key: T -> SortKey, k: SortKey)
    ensures WithKey(SortBy(s, key), key, k) == WithKey(s, key, k)
  {
    if s != [] {
      var init := s[..|s| - 1];
      SortByIsStable(init, key, k);
      InsertKeepsEqualKeysInOrder(SortBy(init, key), s[|s| - 1], key, k);
    }
  }

  /** `List.sort(Comparator.comparing(key))` on a list, by insertion from the front. */
  method Sort<T>(s: seq<T>, key: T -> SortKey) returns (r: seq<T>)
    ensures r == SortBy(s, key)
    ensures Sorted(r, key) && multiset(r) == multiset(s)
  {
    r := [];
    var i := 0;
    while i < |s|
      invariant 0 <= i <= |s|
      invariant r == SortBy(s[..i], key)
    {
      assert s[..i + 1][..i] == s[..i];
      r := InsertAt(r, s[i], key);
      i := i + 1;
    }
    assert s[..i] == s;
    SortByIsSorted(s, key);
    SortByIsPermutation(s, key);
  }

  /** One insertion step: move left past every element whose key is above that of `x`. */
  method InsertAt<T>(r: seq<T>, x: T, key: T -> SortKey) returns (t: seq<T>)
    ensures t == Insert(r, x, key)
  {
    var j := |r|;
    assert r[..j] == r && r[j..] == [];
    while j > 0 && Less(key(x), key(r[j - 1]))
      invariant 0 <= j <= |r|
      invariant Insert(r, x, key) == Insert(r[..j], x, key) + r[j..]
    {
      assert r[..j - 1] == r[..j][..j - 1];
      assert r[j - 1..] == [r[j - 1]] + r[j..];
      j := j - 1;
    }
    assert Insert(r[..j], x, key) == r[..j] + [x];
    t := r[..j] + [x] + r[j..];
  }
}
