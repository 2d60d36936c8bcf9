/** Python's ordering of strings (lexicographic by code point), the stable
    descending sort used by `list.sort(key=..., reverse=True)`, and
    `sorted(set(xs))` for strings. */
module Order {

  /** a < b for Python strings. */
  predicate Less(a: string, b: string)
    decreases |a|
  {
    if |a| == 0 then |b| > 0
    else if |b| == 0 then false
    else if a[0] != b[0] then a[0] < b[0]
    else Less(a[1..], b[1..])
  }

  lemma {:induction false} LessIrreflexive(a: string)
    ensures !Less(a, a)
    decreases |a|
  {
    if |a| > 0 { LessIrreflexive(a[1..]); }
  }

  lemma {:induction false} LessAsymmetric(a: string, b: string)
    ensures !(Less(a, b) && Less(b, a))
    decreases |a|
  {
    if |a| > 0 && |b| > 0 && a[0] == b[0] { LessAsymmetric(a[1..], b[1..]); }
  }

  lemma {:induction false} LessTransitive(a: string, b: string, c: string)
    requires Less(a, b) && Less(b, c)
    ensures Less(a, c)
    decreases |a|
  {
    if |a| > 0 && |b| > 0 && |c| > 0 && a[0] == b[0] == c[0] {
      LessTransitive(a[1..], b[1..], c[1..]);
    }
  }

  /** Any two distinct strings are ordered one way or the other. */
  lemma {:induction false} LessTotal(a: string, b: string)
    ensures a == b || Less(a, b) || Less(b, a)
    decreases |a|
  {
    if |a| > 0 && |b| > 0 && a[0] == b[0] {
      LessTotal(a[1..], b[1..]);
      if a[1..] == b[1..] {
        assert a == [a[0]] + a[1..] && b == [b[0]] + b[1..];
      }
    }
  }

  /** b <= a, written as Python's `not (a < b)`. */
  lemma NotLessTransitive(a: string, b: string, c: string)
    requires !Less(a, b) && !Less(b, c)
    ensures !Less(a, c)
  {
    LessTotal(a, b);
    LessTotal(b, c);
    if a != b && b != c {
      LessTransitive(c, b, a);
      LessAsymmetric(a, c);
    }
  }

  /** b <= a and a < c give b < c. */
  lemma NotLessLess(a: string, b: string, c: string)
    requires !Less(a, b) && Less(a, c)
    ensures Less(b, c)
  {
    LessTotal(a, b);
    if b != a { LessTransitive(b, a, c); }
  }

  /** Comparing two concatenations whose first parts have equal length. */
  lemma {:induction false} LessConcat(a: string, b: string, x: string, y: string)
    requires |a| == |b|
    ensures Less(a + x, b + y) <==> Less(a, b) || (a == b && Less(x, y))
    decreases |a|
  {
    if |a| == 0 {
      assert a + x == x && b + y == y;
    } else {
      assert (a + x)[0] == a[0] && (b + y)[0] == b[0];
      assert (a + x)[1..] == a[1..] + x && (b + y)[1..] == b[1..] + y;
      LessConcat(a[1..], b[1..], x, y);
      if a[0] == b[0] && a[1..] == b[1..] {
        assert a == [a[0]] + a[1..] && b == [b[0]] + b[1..];
      }
    }
  }

  // ---------------------------------------------------------------------
  // Stable descending sort by a string key

  lemma TakeSnoc<T>(s: seq<T>, j: nat)
    requires j < |s|
    ensures s[..j + 1] == s[..j] + [s[j]]
  {
  }

  /** Non-increasing in `key`, the order `sort(key=..., reverse=True)` gives. */
  ghost predicate SortedDesc<T>(s: seq<T>, key: T -> string) {
    forall i, j :: 0 <= i < j < |s| ==> !Less(key(s[i]), key(s[j]))
  }

  /** No two elements share an identity. */
  ghost predicate DistinctBy<T>(s: seq<T>, id: T -> string) {
    forall i, j :: 0 <= i < j < |s| ==> id(s[i]) != id(s[j])
  }

  /** Sequences with the same multiset have the same elements. */
  lemma SameElements<T>(a: seq<T>, b: seq<T>)
    requires multiset(a) == multiset(b)
    ensures forall x :: x in a <==> x in b
  {
    forall x ensures x in a <==> x in b {
      assert x in a <==> x in multiset(a);
      assert x in b <==> x in multiset(b);
    }
  }

  /** A prefix of a descending sequence is descending and nothing after it
      is greater than an element of it. */
  lemma SortedPrefix<T>(s: seq<T>, m: nat, key: T -> string, id: T -> string)
    requires SortedDesc(s, key) && DistinctBy(s, id) && m <= |s|
    ensures SortedDesc(s[..m], key) && DistinctBy(s[..m], id)
    ensures forall x, r :: x in s && x !in s[..m] && r in s[..m] ==> !Less(key(r), key(x))
  {
    var h := s[..m];
    assert forall i :: 0 <= i < m ==> h[i] == s[i];
    forall x, r | x in s && x !in h && r in h ensures !Less(key(r), key(x)) {
      var j :| 0 <= j < |s| && s[j] == x;
      var i :| 0 <= i < m && h[i] == r;
      assert j >= m;
    }
  }

  lemma DistinctSnoc<T>(s: seq<T>, x: T, id: T -> string)
    requires DistinctBy(s, id)
    requires forall y :: y in s ==> id(y) != id(x)
    ensures DistinctBy(s + [x], id)
  {
    var t := s + [x];
    forall i, j | 0 <= i < j < |t| ensures id(t[i]) != id(t[j]) {
      assert t[i] == s[i] && s[i] in s;
    }
  }

  /** Places `x` before the first element whose key is not greater than `x`'s,
      so that `x` stays ahead of the equal keys that followed it. */
  function InsertDesc<T>(x: T, s: seq<T>, key: T -> string): (r: seq<T>)
    ensures multiset(r) == multiset(s) + multiset{x}
  {
    if s == [] || !Less(key(x), key(s[0])) then [x] + s
    else
      assert s == [s[0]] + s[1..];
      [s[0]] + InsertDesc(x, s[1..], key)
  }

  /** A stable sort into non-increasing key order (Python's sort with
      reverse=True keeps equal keys in their original order). */
  function SortDesc<T>(xs: seq<T>, key: T -> string): (r: seq<T>)
    ensures multiset(r) == multiset(xs)
  {
    if xs == [] then []
    else
      assert xs == [xs[0]] + xs[1..];
      InsertDesc(xs[0], SortDesc(xs[1..], key), key)
  }

  lemma {:induction false} InsertDescSorted<T>(x: T, s: seq<T>, key: T -> string)
    requires SortedDesc(s, key)
    ensures SortedDesc(InsertDesc(x, s, key), key)
    decreases |s|
  {
    var r := InsertDesc(x, s, key);
    if s == [] || !Less(key(x), key(s[0])) {
      forall j | 1 <= j < |r| ensures !Less(key(r[0]), key(r[j])) {
        if j > 1 { NotLessTransitive(key(x), key(s[0]), key(s[j - 1])); }
      }
    } else {
      var t := InsertDesc(x, s[1..], key);
      InsertDescSorted(x, s[1..], key);
      LessAsymmetric(key(x), key(s[0]));
      forall j | 0 <= j < |t| ensures !Less(key(s[0]), key(t[j])) {
        assert t[j] in multiset(t);
        assert t[j] == x || t[j] in s[1..];
      }
    }
  }

  lemma {:induction false} SortDescSorted<T>(xs: seq<T>, key: T -> string)
    ensures SortedDesc(SortDesc(xs, key), key)
    decreases |xs|
  {
    if xs != [] {
      SortDescSorted(xs[1..], key);
      InsertDescSorted(xs[0], SortDesc(xs[1..], key), key);
    }
  }

  lemma {:induction false} InsertDescDistinct<T>(x: T, s: seq<T>, key: T -> string, id: T -> string)
    requires DistinctBy(s, id)
    requires forall y :: y in s ==> id(y) != id(x)
    ensures DistinctBy(InsertDesc(x, s, key), id)
    decreases |s|
  {
    if s != [] && Less(key(x), key(s[0])) {
      var t := InsertDesc(x, s[1..], key);
      InsertDescDistinct(x, s[1..], key, id);
      forall j | 0 <= j < |t| ensures id(s[0]) != id(t[j]) {
        assert t[j] in multiset(t);
        assert t[j] == x || t[j] in s[1..];
      }
    }
  }

  /** Sorting keeps identities distinct. */
  lemma {:induction false} SortDescDistinct<T>(xs: seq<T>, key: T -> string, id: T -> string)
    requires DistinctBy(xs, id)
    ensures DistinctBy(SortDesc(xs, key), id)
    decreases |xs|
  {
    if xs != [] {
      var t := SortDesc(xs[1..], key);
      SortDescDistinct(xs[1..], key, id);
      forall y | y in t ensures id(y) != id(xs[0]) {
        assert y in multiset(t);
        var j :| 0 <= j < |xs[1..]| && xs[1..][j] == y;
        assert xs[j + 1] == y;
      }
      InsertDescDistinct(xs[0], t, key, id);
    }
  }

  // ---------------------------------------------------------------------
  // sorted(set(xs)) for strings

  ghost predicate StrictlyAscending(s: seq<string>) {
    forall i, j {:trigger Less(s[i], s[j])} :: 0 <= i < j < |s| ==> Less(s[i], s[j])
  }

  /** Inserts `x` into a strictly ascending sequence unless already there. */
  function InsertUnique(x: string, s: seq<string>): (r: seq<string>)
    ensures forall y :: y in r <==> y == x || y in s
  {
    if s == [] then [x]
    else if x == s[0] then s
    else if Less(x, s[0]) then [x] + s
    else [s[0]] + InsertUnique(x, s[1..])
  }

  /** Python's sorted(set(xs)). */
  function SortUnique(xs: seq<string>): (r: seq<string>)
    ensures forall y :: y in r <==> y in xs
  {
    if xs == [] then [] else InsertUnique(xs[|xs| - 1], SortUnique(xs[..|xs| - 1]))
  }

  /** sorted(set(xs)), characterised by its result: the elements of `xs`,
      strictly ascending. */
  method SortedSet(xs: seq<string>) returns (r: seq<string>)
    ensures StrictlyAscending(r)
    ensures forall y :: y in r <==> y in xs
  {
    r := SortUnique(xs);
    SortUniqueAscending(xs);
  }

  lemma {:induction false} InsertUniqueAscending(x: string, s: seq<string>)
    requires StrictlyAscending(s)
    ensures StrictlyAscending(InsertUnique(x, s))
    decreases |s|
  {
    if s != [] && x != s[0] {
      if Less(x, s[0]) {
        forall j | 1 <= j < |s| ensures Less(x, s[j]) { LessTransitive(x, s[0], s[j]); }
      } else {
        LessTotal(x, s[0]);
        InsertUniqueAscending(x, s[1..]);
        var t := InsertUnique(x, s[1..]);
        forall j | 0 <= j < |t| ensures Less(s[0], t[j]) {
          assert t[j] in t;
        }
      }
    }
  }

  lemma {:induction false} SortUniqueAscending(xs: seq<string>)
    ensures StrictlyAscending(SortUnique(xs))
    decreases |xs|
  {
    if xs != [] {
      SortUniqueAscending(xs[..|xs| - 1]);
      InsertUniqueAscending(xs[|xs| - 1], SortUnique(xs[..|xs| - 1]));
    }
  }

  /** A strictly ascending sequence is determined by its elements. */
  lemma {:induction false} AscendingUnique(a: seq<string>, b: seq<string>)
    requires StrictlyAscending(a) && StrictlyAscending(b)
    requires forall y :: y in a <==> y in b
    ensures a == b
    decreases |a|
  {
    if b != [] {
      assert b[0] in b;
    }
    if a != [] {
      assert a[0] in a;
      assert b != [] by { assert a[0] in b; }
      assert b[0] in b;
      assert a[0] == b[0] by {
        if a[0] != b[0] {
          assert b[0] in a && a[0] in b;
          var i :| 0 <= i < |a| && a[i] == b[0];
          var j :| 0 <= j < |b| && b[j] == a[0];
          assert i > 0 && j > 0;
          LessAsymmetric(a[0], b[0]);
        }
      }
      forall y ensures y in a[1..] <==> y in b[1..] {
        if y in a[1..] {
          var i :| 0 <= i < |a[1..]| && a[1..][i] == y;
          assert Less(a[0], a[i + 1]);
          LessIrreflexive(y);
          assert y in b;
        }
        if y in b[1..] {
          var i :| 0 <= i < |b[1..]| && b[1..][i] == y;
          assert Less(b[0], b[i + 1]);
          LessIrreflexive(y);
          assert y in a;
        }
      }
      AscendingUnique(a[1..], b[1..]);
      assert a == [a[0]] + a[1..] && b == [b[0]] + b[1..];
    }
  }

  function Reverse<T>(s: seq<T>): (r: seq<T>)
    ensures |r| == |s| && forall i :: 0 <= i < |s| ==> r[i] == s[|s| - 1 - i]
  {
    if s == [] then [] else Reverse(s[1..]) + [s[0]]
  }

  lemma ReverseElements<T>(s: seq<T>)
    ensures forall y :: y in Reverse(s) <==> y in s
  {
    var r := Reverse(s);
    forall y ensures y in r <==> y in s {
      if y in r {
        var i :| 0 <= i < |r| && r[i] == y;
        assert s[|s| - 1 - i] == y;
      }
      if y in s {
        var i :| 0 <= i < |s| && s[i] == y;
        assert r[|s| - 1 - i] == y;
      }
    }
  }

  /** The only strictly ascending arrangement of the elements of a strictly
      descending sequence is its reverse. */
  lemma AscendingOfDescending(s: seq<string>, r: seq<string>)
    requires forall i, j :: 0 <= i < j < |s| ==> Less(s[j], s[i])
    requires StrictlyAscending(r) && forall y :: y in r <==> y in s
    ensures r == Reverse(s)
  {
    ReverseElements(s);
    var v := Reverse(s);
    forall i, j | 0 <= i < j < |v| ensures Less(v[i], v[j]) {
      assert v[i] == s[|s| - 1 - i] && v[j] == s[|s| - 1 - j];
    }
    AscendingUnique(r, v);
  }
}
