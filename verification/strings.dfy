/**
 * The string operations the signer relies on: `sep.join(parts)`,
 * `str.split(sep)` (its inverse), `str.rstrip(c)`, `str.index(sub)`, and
 * `sorted()` over strings, which compares code point by code point.
 */
module Strings {
  import opened Wrappers

  /** `sep.join(parts)`. */
  function Join(parts: seq<string>, sep: char): (r: string)
    ensures |parts| == 1 ==> r == parts[0]
  {
    if parts == [] then ""
    else if |parts| == 1 then parts[0]
    else parts[0] + [sep] + Join(parts[1..], sep)
  }

  /** `s.split(sep)`: the pieces between separators; always at least one piece. */
  function Split(s: string, sep: char): (r: seq<string>)
    ensures |r| >= 1
  {
    if s == [] then [""]
    else
      var rest := Split(s[1..], sep);
      if s[0] == sep then [""] + rest else [[s[0]] + rest[0]] + rest[1..]
  }

  lemma {:induction false} SplitNoSeparator(s: string, sep: char)
    requires sep !in s
    ensures Split(s, sep) == [s]
  {
    if s != [] {
      SplitNoSeparator(s[1..], sep);
      assert [s[0]] + s[1..] == s;
    }
  }

  lemma {:induction false} SplitAtSeparator(a: string, b: string, sep: char)
    requires sep !in a
    ensures Split(a + [sep] + b, sep) == [a] + Split(b, sep)
  {
    if a == [] {
      assert a + [sep] + b == [sep] + b;
      assert ([sep] + b)[1..] == b;
    } else {
      assert (a + [sep] + b)[1..] == a[1..] + [sep] + b;
      SplitAtSeparator(a[1..], b, sep);
      assert [a[0]] + a[1..] == a;
    }
  }

  /** Splitting a join gives the parts back when no part holds the separator. */
  lemma {:induction false} SplitJoin(parts: seq<string>, sep: char)
    requires |parts| >= 1
    requires forall i :: 0 <= i < |parts| ==> sep !in parts[i]
    ensures Split(Join(parts, sep), sep) == parts
  {
    if |parts| == 1 {
      SplitNoSeparator(parts[0], sep);
    } else {
      SplitAtSeparator(parts[0], Join(parts[1..], sep), sep);
      SplitJoin(parts[1..], sep);
      assert [parts[0]] + parts[1..] == parts;
    }
  }

  lemma {:induction false} JoinAppend(parts: seq<string>, last: string, sep: char)
    requires parts != []
    ensures Join(parts + [last], sep) == Join(parts, sep) + [sep] + last
  {
    if |parts| == 1 {
      assert parts + [last] == [parts[0], last];
    } else {
      assert (parts + [last])[1..] == parts[1..] + [last];
      JoinAppend(parts[1..], last, sep);
    }
  }

  /** Six parts joined, written out. */
  lemma JoinSix(a: string, b: string, c: string, d: string, e: string, f: string, sep: char)
    ensures Join([a, b, c, d, e, f], sep) == a + [sep] + b + [sep] + c + [sep] + d + [sep] + e + [sep] + f
  {
    var p := [a, b, c, d, e, f];
    assert Join(p[4..], sep) == e + [sep] + f;
    assert Join(p[3..], sep) == d + [sep] + Join(p[4..], sep);
    assert Join(p[2..], sep) == c + [sep] + Join(p[3..], sep);
    assert Join(p[1..], sep) == b + [sep] + Join(p[2..], sep);
    assert Join(p, sep) == a + [sep] + Join(p[1..], sep);
  }

  /** Seven parts joined, written out. */
  lemma JoinSeven(a: string, b: string, c: string, d: string, e: string, f: string, g: string, sep: char)
    ensures Join([a, b, c, d, e, f, g], sep) == a + [sep] + b + [sep] + c + [sep] + d + [sep] + e + [sep] + f + [sep] + g
  {
    var p := [a, b, c, d, e, f, g];
    JoinSix(b, c, d, e, f, g, sep);
    assert p[1..] == [b, c, d, e, f, g];
    assert Join(p, sep) == a + [sep] + Join(p[1..], sep);
  }

  lemma {:induction false} JoinExcludes(parts: seq<string>, sep: char, c: char)
    requires c != sep
    requires forall i :: 0 <= i < |parts| ==> c !in parts[i]
    ensures c !in Join(parts, sep)
  {
    if |parts| > 1 {
      JoinExcludes(parts[1..], sep, c);
    }
  }

  /** Text before the first `sep` is determined: two strings that agree past it agree before it. */
  lemma SameBeforeSeparator(a: string, b: string, x: string, y: string, sep: char)
    requires sep !in a && sep !in b
    requires a + [sep] + x == b + [sep] + y
    ensures a == b && x == y
  {
    var s := a + [sep] + x;
    assert s[|a|] == sep && forall i :: 0 <= i < |a| ==> s[i] != sep;
    assert s[|b|] == sep && forall i :: 0 <= i < |b| ==> s[i] != sep;
    assert a == s[..|a|] && b == s[..|b|];
    assert x == s[|a| + 1..] && y == s[|b| + 1..];
  }

  /** `s.rstrip(c)`: `s` without its run of trailing `c`s. */
  function RStrip(s: string, c: char): (r: string)
    ensures |r| <= |s| && r == s[..|r|]
    ensures r == [] || r[|r| - 1] != c
    ensures forall i :: |r| <= i < |s| ==> s[i] == c
  {
    if s != [] && s[|s| - 1] == c then RStrip(s[..|s| - 1], c) else s
  }

  /** `sub` occurs in `s` starting at position `j`. */
  predicate OccursAt(s: string, sub: string, j: int) {
    0 <= j && j + |sub| <= |s| && s[j..j + |sub|] == sub
  }

  lemma OccursShift(s: string, sub: string, j: nat)
    requires s != []
    ensures OccursAt(s[1..], sub, j) <==> OccursAt(s, sub, j + 1)
  {
    if j + |sub| <= |s| - 1 {
      assert s[1..][j..j + |sub|] == s[j + 1..j + 1 + |sub|];
    }
  }

  lemma AbsentAfterHead(s: string, sub: string)
    requires s != [] && !OccursAt(s, sub, 0)
    requires forall j :: !OccursAt(s[1..], sub, j)
    ensures forall j :: !OccursAt(s, sub, j)
  {
    forall j | j > 0 ensures !OccursAt(s, sub, j) {
      OccursShift(s, sub, j - 1);
    }
  }

  lemma FirstAfterHead(s: string, sub: string, k: nat)
    requires s != [] && !OccursAt(s, sub, 0)
    requires OccursAt(s[1..], sub, k) && forall j :: 0 <= j < k ==> !OccursAt(s[1..], sub, j)
    ensures OccursAt(s, sub, k + 1) && forall j :: 0 <= j < k + 1 ==> !OccursAt(s, sub, j)
  {
    OccursShift(s, sub, k);
    forall j | 0 < j < k + 1 ensures !OccursAt(s, sub, j) {
      OccursShift(s, sub, j - 1);
    }
  }

  /** Stripping a string that ends in one `c` after a non-`c` removes just that one. */
  lemma RStripOneMore(s: string, c: char)
    requires s != [] && s[|s| - 1] != c
    ensures RStrip(s + [c], c) == s
  {
    assert (s + [c])[..|s|] == s;
  }

  /** The position of the first occurrence of `sub` in `s`, as `s.index(sub)`; None where it raises. */
  function IndexOf(s: string, sub: string): (r: Option<nat>)
    ensures r.Some? ==> OccursAt(s, sub, r.value)
    ensures r.Some? ==> forall j :: 0 <= j < r.value ==> !OccursAt(s, sub, j)
    ensures r.None? ==> forall j :: !OccursAt(s, sub, j)
    decreases |s|
  {
    if |s| < |sub| then None
    else if s[..|sub|] == sub then Some(0)
    else
      assert !OccursAt(s, sub, 0);
      match IndexOf(s[1..], sub)
      case None => AbsentAfterHead(s, sub); None
      case Some(k) => FirstAfterHead(s, sub, k); Some(k + 1)
  }

  // ---------------------------------------------------------------------
  // Ordering and sorting

  /** Python's `a <= b` on strings: code-point lexicographic order. */
  predicate LessEq(a: string, b: string) {
    if a == [] then true
    else if b == [] then false
    else if a[0] != b[0] then a[0] < b[0]
    else LessEq(a[1..], b[1..])
  }

  lemma {:induction false} LessEqTotal(a: string, b: string)
    ensures LessEq(a, b) || LessEq(b, a)
  {
    if a != [] && b != [] && a[0] == b[0] {
      LessEqTotal(a[1..], b[1..]);
    }
  }

  lemma {:induction false} LessEqReflexive(a: string)
    ensures LessEq(a, a)
  {
    if a != [] {
      LessEqReflexive(a[1..]);
    }
  }

  lemma {:induction false} LessEqAntisymmetric(a: string, b: string)
    requires LessEq(a, b) && LessEq(b, a)
    ensures a == b
  {
    if a != [] && b != [] {
      LessEqAntisymmetric(a[1..], b[1..]);
      assert [a[0]] + a[1..] == a && [b[0]] + b[1..] == b;
    }
  }

  lemma {:induction false} LessEqTransitive(a: string, b: string, c: string)
    requires LessEq(a, b) && LessEq(b, c)
    ensures LessEq(a, c)
  {
    if a != [] && b != [] && c != [] && a[0] == b[0] && b[0] == c[0] {
      LessEqTransitive(a[1..], b[1..], c[1..]);
    }
  }

  /**
   * Two strings that agree on their first `i` characters and then differ,
   * `p[i] < q[i]`, are ordered by that position whatever follows them.
   */
  lemma {:induction false} LessAtPosition(p: string, q: string, x: string, y: string, i: nat)
    requires i < |p| && i < |q| && p[..i] == q[..i] && p[i] < q[i]
    ensures LessEq(p + x, q + y) && p + x != q + y
  {
    if i > 0 {
      assert p[0] == p[..i][0] == q[..i][0] == q[0];
      assert p[1..][..i - 1] == p[..i][1..] && q[1..][..i - 1] == q[..i][1..];
      LessAtPosition(p[1..], q[1..], x, y, i - 1);
      assert (p + x)[1..] == p[1..] + x && (q + y)[1..] == q[1..] + y;
    } else {
      assert (p + x)[0] == p[0] && (q + y)[0] == q[0];
    }
  }

  predicate IsSorted(s: seq<string>) {
    forall i, j :: 0 <= i < j < |s| ==> LessEq(s[i], s[j])
  }

  /** Adjacent order is enough, by transitivity. */
  lemma {:induction false} SortedByNeighbours(s: seq<string>)
    requires forall i :: 0 <= i < |s| - 1 ==> LessEq(s[i], s[i + 1])
    ensures IsSorted(s)
  {
    if |s| > 1 {
      SortedByNeighbours(s[1..]);
      forall j | 1 <= j < |s| ensures LessEq(s[0], s[j]) {
        if j > 1 {
          assert LessEq(s[1..][0], s[1..][j - 1]);
          LessEqTransitive(s[0], s[1], s[j]);
        }
      }
    }
  }

  /** Puts `x` into a sorted sequence in front of the first element not below it. */
  function Insert(x: string, s: seq<string>): seq<string> {
    if s == [] then [x]
    else if LessEq(x, s[0]) then [x] + s
    else [s[0]] + Insert(x, s[1..])
  }

  lemma {:induction false} InsertSorted(x: string, s: seq<string>)
    requires IsSorted(s)
    ensures IsSorted(Insert(x, s)) && multiset(Insert(x, s)) == multiset(s) + multiset{x}
  {
    if s == [] {
    } else if LessEq(x, s[0]) {
      forall j | 0 < j < |s| ensures LessEq(x, s[j]) { LessEqTransitive(x, s[0], s[j]); }
      PrependSorted(x, s);
    } else {
      InsertSorted(x, s[1..]);
      InsertBehindHead(x, s, Insert(x, s[1..]));
    }
  }

  /** The step of `Insert` that keeps the head: the head bounds the rest with `x` inserted. */
  lemma InsertBehindHead(x: string, s: seq<string>, t: seq<string>)
    requires s != [] && IsSorted(s) && !LessEq(x, s[0])
    requires IsSorted(t) && multiset(t) == multiset(s[1..]) + multiset{x}
    ensures IsSorted([s[0]] + t) && multiset([s[0]] + t) == multiset(s) + multiset{x}
  {
    LessEqTotal(x, s[0]);
    var u := s[1..] + [x];
    assert multiset(u) == multiset(t);
    forall k | 0 <= k < |u|
      ensures LessEq(s[0], u[k])
    {
      if k < |s| - 1 {
        assert u[k] == s[k + 1];
      }
    }
    BoundByMultiset(s[0], t, u);
    PrependSorted(s[0], t);
    assert s == [s[0]] + s[1..];
  }

  /** A lower bound of every element of `u` bounds every element of a permutation of `u`. */
  lemma BoundByMultiset(y: string, t: seq<string>, u: seq<string>)
    requires multiset(t) == multiset(u)
    requires forall k :: 0 <= k < |u| ==> LessEq(y, u[k])
    ensures forall k :: 0 <= k < |t| ==> LessEq(y, t[k])
  {
    forall k | 0 <= k < |t|
      ensures LessEq(y, t[k])
    {
      assert t[k] in multiset(u);
      var m :| 0 <= m < |u| && u[m] == t[k];
    }
  }

  /** Putting a lower bound in front of a sorted sequence keeps it sorted. */
  lemma PrependSorted(y: string, t: seq<string>)
    requires IsSorted(t)
    requires forall k :: 0 <= k < |t| ==> LessEq(y, t[k])
    ensures IsSorted([y] + t)
  {
    var r := [y] + t;
    forall i, j | 0 <= i < j < |r|
      ensures LessEq(r[i], r[j])
    {
      if i > 0 {
        assert r[i] == t[i - 1] && r[j] == t[j - 1];
      }
    }
  }

  /** Insertion sort: `sorted()` on a list of strings. */
  function Sort(s: seq<string>): (r: seq<string>)
    ensures IsSorted(r) && multiset(r) == multiset(s)
  {
    if s == [] then []
    else
      assert s == [s[0]] + s[1..];
      InsertSorted(s[0], Sort(s[1..]));
      Insert(s[0], Sort(s[1..]))
  }

  /** The head of a sorted sequence is below every element. */
  lemma SortedHeadIsLeast(a: seq<string>, x: string)
    requires IsSorted(a) && x in multiset(a)
    ensures LessEq(a[0], x)
  {
    var k :| 0 <= k < |a| && a[k] == x;
    if k == 0 {
      LessEqReflexive(x);
    }
  }

  lemma SameTails(a: seq<string>, b: seq<string>)
    requires a != [] && b != [] && a[0] == b[0] && multiset(a) == multiset(b)
    ensures multiset(a[1..]) == multiset(b[1..])
  {
    assert a == [a[0]] + a[1..] && b == [b[0]] + b[1..];
    calc {
      multiset(a[1..]);
      multiset{a[0]} + multiset(a[1..]) - multiset{a[0]};
      multiset(a) - multiset{a[0]};
      multiset(b) - multiset{a[0]};
      multiset{b[0]} + multiset(b[1..]) - multiset{a[0]};
      multiset(b[1..]);
    }
  }

  /** A sorted order of given elements is unique: `sorted()` has exactly one possible result. */
  lemma {:induction false} SortedUnique(a: seq<string>, b: seq<string>)
    requires IsSorted(a) && IsSorted(b) && multiset(a) == multiset(b)
    ensures a == b
  {
    if a != [] {
      assert a[0] in multiset(a);
      assert b != [];
      SortedHeadIsLeast(a, b[0]);
      SortedHeadIsLeast(b, a[0]);
      LessEqAntisymmetric(a[0], b[0]);
      SameTails(a, b);
      assert IsSorted(a[1..]) && IsSorted(b[1..]);
      SortedUnique(a[1..], b[1..]);
    }
  }
}
