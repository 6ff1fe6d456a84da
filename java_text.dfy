/**
 * The few java.lang.String operations the repository relies on: trim, isBlank,
 * toLowerCase/toUpperCase, contains, split(",", -1) and lastIndexOf.
 */
module JavaText {
  import opened Sequences

  /** `String.trim` strips every leading and trailing character at or below U+0020. */
  predicate IsTrimmable(c: char) {
    c <= ' '
  }

  predicate StartsClean(s: string) {
    s == [] || !IsTrimmable(s[0])
  }

  predicate EndsClean(s: string) {
    s == [] || !IsTrimmable(s[|s| - 1])
  }

  /** True when `s` has nothing for `trim` to remove. */
  predicate HasCleanEdges(s: string) {
    StartsClean(s) && EndsClean(s)
  }

  /** `r` is the infix of `s` at `k`, and everything of `s` around it is trimmable. */
  predicate IsTrimmedInfix(s: string, r: string, k: int) {
    0 <= k <= |s| - |r| && r == s[k..k + |r|] &&
    (forall i :: 0 <= i < k ==> IsTrimmable(s[i])) &&
    (forall i :: k + |r| <= i < |s| ==> IsTrimmable(s[i]))
  }

  /** `String.trim`. */
  function Trim(s: string): (r: string)
    ensures HasCleanEdges(r)
    ensures |r| <= |s|
  {
    if s != [] && IsTrimmable(s[0]) then Trim(s[1..])
    else if s != [] && IsTrimmable(s[|s| - 1]) then Trim(s[..|s| - 1])
    else s
  }

  /** `trim` removes only trimmable characters, and only at the two ends. */
  lemma {:induction false} TrimIsInfix(s: string)
    ensures exists k :: IsTrimmedInfix(s, Trim(s), k)
  {
    var r := Trim(s);
    if s != [] && IsTrimmable(s[0]) {
      TrimIsInfix(s[1..]);
      var k :| IsTrimmedInfix(s[1..], r, k);
      TrimmedInfixFront(s, r, k);
    } else if s != [] && IsTrimmable(s[|s| - 1]) {
      TrimIsInfix(s[..|s| - 1]);
      var k :| IsTrimmedInfix(s[..|s| - 1], r, k);
      TrimmedInfixBack(s, r, k);
    } else {
      assert IsTrimmedInfix(s, r, 0);
    }
  }

  /** A trimmable character in front moves the infix one place to the right. */
  lemma TrimmedInfixFront(s: string, r: string, k: int)
    requires s != [] && IsTrimmable(s[0]) && IsTrimmedInfix(s[1..], r, k)
    ensures IsTrimmedInfix(s, r, k + 1)
  {
    assert s[k + 1..k + 1 + |r|] == s[1..][k..k + |r|];
    forall i | 0 <= i < k + 1
      ensures IsTrimmable(s[i])
    {
      if i > 0 {
        assert s[i] == s[1..][i - 1];
      }
    }
    forall i | k + 1 + |r| <= i < |s|
      ensures IsTrimmable(s[i])
    {
      assert s[i] == s[1..][i - 1];
    }
  }

  /** A trimmable character at the end keeps the infix where it is. */
  lemma TrimmedInfixBack(s: string, r: string, k: int)
    requires s != [] && IsTrimmable(s[|s| - 1]) && IsTrimmedInfix(s[..|s| - 1], r, k)
    ensures IsTrimmedInfix(s, r, k)
  {
    assert s[k..k + |r|] == s[..|s| - 1][k..k + |r|];
    forall i | 0 <= i < k
      ensures IsTrimmable(s[i])
    {
      assert s[i] == s[..|s| - 1][i];
    }
    forall i | k + |r| <= i < |s|
      ensures IsTrimmable(s[i])
    {
      if i < |s| - 1 {
        assert s[i] == s[..|s| - 1][i];
      }
    }
  }

  lemma TrimKeepsCleanString(s: string)
    requires HasCleanEdges(s)
    ensures Trim(s) == s
  {
  }

  /** `Character.isWhitespace`: the ASCII controls it names and the Unicode separators other than no-break spaces. */
  predicate IsJavaWhitespace(c: char) {
    ('\U{0009}' <= c <= '\U{000D}') || ('\U{001C}' <= c <= ' ') ||
    c == '\U{1680}' || ('\U{2000}' <= c <= '\U{2006}') || ('\U{2008}' <= c <= '\U{200A}') ||
    c == '\U{2028}' || c == '\U{2029}' || c == '\U{205F}' || c == '\U{3000}'
  }

  /** `String.isBlank`. */
  predicate IsBlank(s: string) {
    forall i :: 0 <= i < |s| ==> IsJavaWhitespace(s[i])
  }

  function LowerChar(c: char): char {
    if 'A' <= c <= 'Z' then (c as int + 32) as char else c
  }

  function UpperChar(c: char): char {
    if 'a' <= c <= 'z' then (c as int - 32) as char else c
  }

  /** `String.toLowerCase`, on the ASCII letters. */
  function Lower(s: string): (r: string)
    ensures |r| == |s|
  {
    seq(|s|, i requires 0 <= i < |s| => LowerChar(s[i]))
  }

  /** `String.toUpperCase`, on the ASCII letters. */
  function Upper(s: string): (r: string)
    ensures |r| == |s|
  {
    seq(|s|, i requires 0 <= i < |s| => UpperChar(s[i]))
  }

  lemma {:induction false} LowerIsIdempotent(s: string)
    ensures Lower(Lower(s)) == Lower(s)
  {
    forall i | 0 <= i < |s|
      ensures Lower(Lower(s))[i] == Lower(s)[i]
    {
    }
  }

  /** `String.equalsIgnoreCase`, on the ASCII letters. */
  predicate EqualsIgnoreCase(a: string, b: string) {
    Lower(a) == Lower(b)
  }

  predicate OccursAt(s: string, sub: string, i: int) {
    0 <= i && i + |sub| <= |s| && s[i..i + |sub|] == sub
  }

  /** `String.contains`. */
  predicate Contains(s: string, sub: string) {
    exists i | 0 <= i <= |s| - |sub| :: OccursAt(s, sub, i)
  }

  /** The number of occurrences of `c` in `s`. */
  function Count(s: string, c: char): nat {
    if s == [] then 0 else (if s[0] == c then 1 else 0) + Count(s[1..], c)
  }

  /**
   * `s.split(",", -1)`: every comma separates two fields, and empty fields,
   * leading and trailing ones included, are kept.
   */
  function Split(s: string): (fields: seq<string>)
    ensures |fields| >= 1
  {
    if s == [] then [""]
    else
      var rest := Split(s[1..]);
      if s[0] == ',' then [""] + rest
      else [[s[0]] + rest[0]] + rest[1..]
  }

  /** The inverse of `Split`: the fields with a comma between each two. */
  function Join(fields: seq<string>): string
    requires |fields| >= 1
  {
    if |fields| == 1 then fields[0] else fields[0] + "," + Join(fields[1..])
  }

  /** Three fields joined: commas between them. */
  lemma JoinThree(a: string, b: string, c: string)
    ensures Join([a, b, c]) == a + "," + b + "," + c
  {
    assert [a, b, c][1..] == [b, c] && [b, c][1..] == [c];
    assert Join([b, c]) == b + "," + c;
  }

  /** Four fields joined: commas between them. */
  lemma JoinFour(a: string, b: string, c: string, d: string)
    ensures Join([a, b, c, d]) == a + "," + b + "," + c + "," + d
  {
    assert [a, b, c, d][1..] == [b, c, d];
    JoinThree(b, c, d);
  }

  predicate CommaFree(s: string) {
    ',' !in s
  }

  lemma {:induction false} SplitCountsCommas(s: string)
    ensures |Split(s)| == Count(s, ',') + 1
  {
    if s != [] {
      SplitCountsCommas(s[1..]);
    }
  }

  lemma {:induction false} SplitFieldsAreCommaFree(s: string)
    ensures forall f :: f in Split(s) ==> CommaFree(f)
  {
    if s != [] {
      SplitFieldsAreCommaFree(s[1..]);
      var rest := Split(s[1..]);
      if s[0] != ',' {
        assert rest[0] in rest;
        assert CommaFree([s[0]] + rest[0]);
        assert forall f :: f in rest[1..] ==> f in rest;
      }
    }
  }

  lemma {:induction false} JoinOfSplit(s: string)
    ensures Join(Split(s)) == s
  {
    if s != [] {
      JoinOfSplit(s[1..]);
      var rest := Split(s[1..]);
      if s[0] == ',' {
        assert Split(s)[1..] == rest;
      } else if |rest| == 1 {
        assert s == [s[0]] + s[1..];
      } else {
        var fields := Split(s);
        assert fields[1..] == rest[1..];
        assert Join(rest) == rest[0] + "," + Join(rest[1..]);
      }
    }
  }

  /** A comma-free prefix glues onto the first field of what follows. */
  lemma {:induction false} SplitCommaFreePrefix(a: string, t: string)
    requires CommaFree(a)
    ensures Split(a + t) == [a + Split(t)[0]] + Split(t)[1..]
  {
    if a == [] {
      var fs := Split(t);
      assert a + t == t;
      assert a + fs[0] == fs[0];
      HeadTail(fs);
    } else {
      SplitCommaFreePrefix(a[1..], t);
      SplitGluesChar(a, t);
    }
  }

  /** One more non-comma character in front glues onto the first field. */
  lemma SplitGluesChar(a: string, t: string)
    requires a != [] && a[0] != ','
    requires Split(a[1..] + t) == [a[1..] + Split(t)[0]] + Split(t)[1..]
    ensures Split(a + t) == [a + Split(t)[0]] + Split(t)[1..]
  {
    var fs := Split(t);
    var rest := Split(a[1..] + t);
    assert rest[0] == a[1..] + fs[0] && rest[1..] == fs[1..];
    DropFirstOfConcat(a, t);
    ConsOfConcat(a, fs[0]);
  }

  lemma {:induction false} SplitOfJoin(fields: seq<string>)
    requires |fields| >= 1
    requires forall k :: 0 <= k < |fields| ==> CommaFree(fields[k])
    ensures Split(Join(fields)) == fields
  {
    if |fields| == 1 {
      SplitOfCommaFree(fields[0]);
    } else {
      SplitOfJoin(fields[1..]);
      SplitOfJoinStep(fields[0], fields[1..]);
      HeadTail(fields);
    }
  }

  /** A comma-free string is a single field. */
  lemma SplitOfCommaFree(f: string)
    requires CommaFree(f)
    ensures Split(f) == [f]
  {
    SplitCommaFreePrefix(f, "");
    assert f + "" == f;
  }

  /** A comma-free field, a comma, then text that splits as `tail`, splits as the field followed by `tail`. */
  lemma SplitOfJoinStep(head: string, tail: seq<string>)
    requires CommaFree(head) && |tail| >= 1 && Split(Join(tail)) == tail
    ensures Split(head + "," + Join(tail)) == [head] + tail
  {
    var joined := "," + Join(tail);
    assert head + "," + Join(tail) == head + joined;
    SplitAfterComma(Join(tail));
    SplitCommaFreePrefix(head, joined);
    assert head + "" == head;
  }

  /** A join starts with its first field and ends with its last, each next to a comma when there are two or more. */
  lemma {:induction false} JoinEdges(fields: seq<string>)
    requires |fields| >= 1
    ensures var j, f := Join(fields), fields[0]; |j| >= |f| && j[..|f|] == f
    ensures var j, l := Join(fields), fields[|fields| - 1]; |j| >= |l| && j[|j| - |l|..] == l
    ensures |fields| > 1 ==> var j, f := Join(fields), fields[0]; |j| > |f| && j[|f|] == ','
    ensures |fields| > 1 ==> var j, l := Join(fields), fields[|fields| - 1]; |j| > |l| && j[|j| - |l| - 1] == ','
  {
    if |fields| > 1 {
      var tail := fields[1..];
      JoinEdges(tail);
      var j := Join(fields);
      var rest := Join(tail);
      assert j == fields[0] + "," + rest;
      assert tail[|tail| - 1] == fields[|fields| - 1];
      assert j[|j| - |rest|..] == rest;
    }
  }

  lemma SplitAfterComma(t: string)
    ensures Split("," + t) == [""] + Split(t)
  {
    assert ("," + t)[1..] == t;
  }

  /** The first field of `Split(s)` is a prefix of `s`, and the last one a suffix. */
  lemma SplitEdgeFields(s: string)
    ensures var fs := Split(s); |fs[0]| <= |s| && fs[0] == s[..|fs[0]|]
    ensures var fs := Split(s); |fs[|fs| - 1]| <= |s| && fs[|fs| - 1] == s[|s| - |fs[|fs| - 1]|..]
  {
    SplitFirstField(s);
    SplitLastField(s);
  }

  lemma {:induction false} SplitFirstField(s: string)
    ensures var f := Split(s)[0]; |f| <= |s| && f == s[..|f|]
  {
    if s != [] && s[0] != ',' {
      var t := s[1..];
      SplitFirstField(t);
      var f := Split(t)[0];
      assert Split(s)[0] == [s[0]] + f;
      assert f == t[..|f|];
      assert s[..|f| + 1] == [s[0]] + t[..|f|];
    }
  }

  lemma {:induction false} SplitLastField(s: string)
    ensures var fs := Split(s); var l := fs[|fs| - 1]; |l| <= |s| && l == s[|s| - |l|..]
  {
    if s != [] {
      var t := s[1..];
      SplitLastField(t);
      var rest := Split(t);
      var l := rest[|rest| - 1];
      assert t[|t| - |l|..] == s[|s| - |l|..];
      if s[0] != ',' && |rest| == 1 {
        JoinOfSplit(t);
        assert Split(s) == [[s[0]] + rest[0]];
        assert [s[0]] + t == s;
      } else {
        assert Split(s)[|Split(s)| - 1] == l;
      }
    }
  }

  /** `String.lastIndexOf(char)`: -1 when `c` does not occur. */
  function LastIndexOf(s: string, c: char): (r: int)
    ensures -1 <= r < |s|
    ensures r >= 0 ==> s[r] == c
    ensures forall k :: r < k < |s| ==> s[k] != c
  {
    if s == [] then -1
    else if s[|s| - 1] == c then |s| - 1
    else LastIndexOf(s[..|s| - 1], c)
  }
}
