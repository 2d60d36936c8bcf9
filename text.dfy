/** String helpers with the semantics of the Python built-ins the pipeline uses:
    str.strip(), the `in` substring test, str.replace(pat, ""), str.endswith and
    str.join. Strings are sequences of Unicode scalar values. */
module Text {

  /** Python's str.isspace() for a single character. */
  predicate IsSpace(c: char) {
    var n := c as int;
    n == 32 || 9 <= n <= 13 || 28 <= n <= 31 || n == 0x85 || n == 0xA0 || n == 0x1680
    || 0x2000 <= n <= 0x200A || n == 0x2028 || n == 0x2029 || n == 0x202F
    || n == 0x205F || n == 0x3000
  }

  predicate IsBlank(s: string) {
    forall k :: 0 <= k < |s| ==> IsSpace(s[k])
  }

  /** Neither end of `s` is whitespace: what strip() leaves. */
  predicate IsStripped(s: string) {
    |s| == 0 || (!IsSpace(s[0]) && !IsSpace(s[|s| - 1]))
  }

  /** str.strip(): drops the whitespace at both ends, nothing else; empty
      exactly when `s` is all whitespace. */
  function Strip(s: string): (r: string)
    ensures IsStripped(r)
    ensures |r| <= |s|
    ensures r == "" <==> IsBlank(s)
  {
    if |s| > 0 && IsSpace(s[0]) then
      assert IsBlank(s) <==> IsBlank(s[1..]) by {
        if IsBlank(s[1..]) {
          forall k | 0 <= k < |s| ensures IsSpace(s[k]) {
            if k > 0 { assert s[k] == s[1..][k - 1]; }
          }
        }
      }
      Strip(s[1..])
    else if |s| > 0 && IsSpace(s[|s| - 1]) then
      assert |s| >= 2 && !IsSpace(s[..|s| - 1][0]);
      Strip(s[..|s| - 1])
    else
      assert s != [] ==> !IsSpace(s[0]);
      s
  }

  lemma BlankConcat(a: string, b: string)
    requires IsBlank(a) && IsBlank(b)
    ensures IsBlank(a + b)
  {
    forall k | 0 <= k < |a + b| ensures IsSpace((a + b)[k]) {
      if k >= |a| { assert (a + b)[k] == b[k - |a|]; }
    }
  }

  lemma SplitFront(c: char, t: string, a: string, r: string, b: string)
    requires IsSpace(c) && IsBlank(a) && t == a + r + b
    ensures IsBlank([c] + a) && [c] + t == ([c] + a) + r + b
  {
    BlankConcat([c], a);
  }

  lemma SplitBack(t: string, c: char, a: string, r: string, b: string)
    requires IsSpace(c) && IsBlank(b) && t == a + r + b
    ensures IsBlank(b + [c]) && t + [c] == a + r + (b + [c])
  {
    BlankConcat(b, [c]);
  }

  lemma StripFront(s: string)
    requires |s| > 0 && IsSpace(s[0])
    ensures Strip(s) == Strip(s[1..])
  {
  }

  lemma StripBack(s: string)
    requires |s| > 0 && !IsSpace(s[0]) && IsSpace(s[|s| - 1])
    ensures Strip(s) == Strip(s[..|s| - 1])
  {
  }

  /** The whitespace strip() removes from each end of `s`. */
  lemma {:induction false} StripPadding(s: string) returns (a: string, b: string)
    ensures IsBlank(a) && IsBlank(b) && s == a + Strip(s) + b
  {
    if |s| > 0 && IsSpace(s[0]) {
      var t := s[1..];
      StripFront(s);
      var a0, b0 := StripPadding(t);
      SplitFront(s[0], t, a0, Strip(t), b0);
      assert [s[0]] + t == s;
      a, b := [s[0]] + a0, b0;
    } else if |s| > 0 && IsSpace(s[|s| - 1]) {
      var t := s[..|s| - 1];
      StripBack(s);
      var a0, b0 := StripPadding(t);
      SplitBack(t, s[|s| - 1], a0, Strip(t), b0);
      assert t + [s[|s| - 1]] == s;
      a, b := a0, b0 + [s[|s| - 1]];
    } else {
      assert Strip(s) == s;
      a, b := [], [];
      assert s == a + Strip(s) + b;
    }
  }

  /** What strip() removes is whitespace at the two ends: `s` is blank,
      then the result, then blank. */
  lemma StripSplits(s: string)
    ensures exists a, b :: IsBlank(a) && IsBlank(b) && s == a + Strip(s) + b
  {
    var a, b := StripPadding(s);
  }

  /** A string with no whitespace at either end is its own strip(). */
  lemma StripStripped(s: string)
    requires IsStripped(s)
    ensures Strip(s) == s
  {
  }

  /** strip() is idempotent. */
  lemma StripIdempotent(s: string)
    ensures Strip(Strip(s)) == Strip(s)
  {
    StripStripped(Strip(s));
  }

  /** Python's `t in s` for strings. */
  predicate Contains(s: string, t: string) {
    exists i :: 0 <= i <= |s| && t <= s[i..]
  }

  /** s.endswith(suffix) */
  predicate EndsWith(s: string, suffix: string) {
    |suffix| <= |s| && s[|s| - |suffix|..] == suffix
  }

  /** s.replace(pat, ""): deletes the non-overlapping occurrences of `pat`
      found scanning from the left. */
  function RemoveAll(s: string, pat: string): (r: string)
    requires |pat| > 0
    ensures |r| <= |s|
    decreases |s|
  {
    if |s| < |pat| then s
    else if s[..|pat|] == pat then RemoveAll(s[|pat|..], pat)
    else [s[0]] + RemoveAll(s[1..], pat)
  }

  /** Deleting a pattern that starts with a character absent from `s` leaves
      exactly `s` when the pattern is appended once. */
  lemma {:induction false} RemoveAllSuffix(s: string, pat: string)
    requires |pat| > 0 && pat[0] !in s
    ensures RemoveAll(s + pat, pat) == s
    decreases |s|
  {
    if s == [] {
      assert (s + pat)[..|pat|] == pat;
      assert (s + pat)[|pat|..] == [];
    } else {
      assert (s + pat)[0] == s[0] != pat[0];
      assert (s + pat)[1..] == s[1..] + pat;
      RemoveAllSuffix(s[1..], pat);
      assert [s[0]] + s[1..] == s;
    }
  }

  /** `n` copies of `x`, Python's [x] * n. */
  function Repeat<T>(x: T, n: nat): (r: seq<T>)
    ensures |r| == n && forall i :: 0 <= i < n ==> r[i] == x
  {
    if n == 0 then [] else Repeat(x, n - 1) + [x]
  }

  /** sep.join(parts) */
  function Join(parts: seq<string>, sep: string): string {
    if |parts| == 0 then ""
    else if |parts| == 1 then parts[0]
    else Join(parts[..|parts| - 1], sep) + sep + parts[|parts| - 1]
  }

  /** s.count(c) for a single character. */
  function CountChar(s: string, c: char): nat {
    if s == [] then 0 else CountChar(s[..|s| - 1], c) + (if s[|s| - 1] == c then 1 else 0)
  }

  lemma {:induction false} CountCharConcat(a: string, b: string, c: char)
    ensures CountChar(a + b, c) == CountChar(a, c) + CountChar(b, c)
    decreases |b|
  {
    if b == [] {
      assert a + b == a;
    } else {
      var b' := b[..|b| - 1];
      assert (a + b)[..|a + b| - 1] == a + b';
      CountCharConcat(a, b', c);
    }
  }

  lemma {:induction false} CountCharAbsent(s: string, c: char)
    requires c !in s
    ensures CountChar(s, c) == 0
  {
    if s != [] {
      assert s[..|s| - 1] <= s;
      CountCharAbsent(s[..|s| - 1], c);
    }
  }

  /** s.split(c) for a single-character separator. */
  function Split(s: string, c: char): (parts: seq<string>)
    ensures |parts| == CountChar(s, c) + 1
    ensures forall i :: 0 <= i < |parts| ==> c !in parts[i]
  {
    if s == [] then [""]
    else
      var p := Split(s[..|s| - 1], c);
      var x := s[|s| - 1];
      if x == c then p + [""]
      else
        var q := p[..|p| - 1] + [p[|p| - 1] + [x]];
        assert forall i :: 0 <= i < |q| - 1 ==> q[i] == p[i];
        q
  }

  /** Joining the pieces of a split with the separator gives back the string. */
  lemma {:induction false} JoinSplit(s: string, c: char)
    ensures Join(Split(s, c), [c]) == s
  {
    if s != [] {
      var init, x := s[..|s| - 1], s[|s| - 1];
      var p := Split(init, c);
      JoinSplit(init, c);
      if x == c {
        var q := p + [""];
        assert q[..|q| - 1] == p;
        assert s == init + [c];
      } else {
        var q := Split(s, c);
        assert q == p[..|p| - 1] + [p[|p| - 1] + [x]];
        if |p| == 1 {
          assert s == init + [x];
        } else {
          assert q[..|q| - 1] == p[..|p| - 1];
          assert Join(p, [c]) == Join(p[..|p| - 1], [c]) + [c] + p[|p| - 1];
          assert s == init + [x];
        }
      }
    }
  }

  lemma SeparatorAt(a: string, b: string, c: char)
    requires c !in a
    ensures (a + [c] + b)[|a|] == c
    ensures forall i :: 0 <= i < |a| ==> (a + [c] + b)[i] != c
  {
    forall i | 0 <= i < |a| ensures (a + [c] + b)[i] != c {
      assert (a + [c] + b)[i] == a[i];
    }
  }

  /** Two strings split at a sole separator have the same halves. */
  lemma SplitAtSole(a: string, b: string, a': string, b': string, c: char)
    requires c !in a && c !in b && c !in a' && c !in b'
    requires a + [c] + b == a' + [c] + b'
    ensures a == a' && b == b'
  {
    var s := a + [c] + b;
    SeparatorAt(a, b, c);
    SeparatorAt(a', b', c);
    assert |a| == |a'|;
    assert a == s[..|a|] == a';
    assert b == s[|a| + 1..] == b';
  }
}
