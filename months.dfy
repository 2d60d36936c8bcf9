/** Calendar months and their `YYYY-MM` keys (scripts/collect.py): the key
    format of month_key_from_dt, its parse in prune_old_archives, the month
    arithmetic of months_back_list and the retention cutoff. */
module Months {
  import opened Wrappers
  import opened Order

  type Year = y: int | 1 <= y <= 9999 witness 1
  type Month = m: int | 1 <= m <= 12 witness 1

  /** A calendar month, the (year, month) of a Python datetime. */
  datatype YearMonth = YearMonth(year: Year, month: Month)

  /** Years of archive kept by prune_old_archives. */
  const KEEP_YEARS: nat := 5
  /** Months merged into the latest window by generate_latest. */
  const LATEST_MONTHS: nat := 3

  function Pow10(w: nat): (p: nat)
    ensures p >= 1
  {
    if w == 0 then 1 else 10 * Pow10(w - 1)
  }

  predicate IsDigit(c: char) {
    '0' <= c <= '9'
  }

  predicate AllDigits(s: string) {
    forall k :: 0 <= k < |s| ==> IsDigit(s[k])
  }

  function DigitChar(d: int): (c: char)
    requires 0 <= d <= 9
    ensures IsDigit(c) && c as int - 48 == d
  {
    (48 + d) as char
  }

  /** f"{n:0{width}d}": the last `width` decimal digits of `n`, zero padded. */
  function Digits(n: nat, width: nat): (r: string)
    ensures |r| == width && AllDigits(r)
  {
    if width == 0 then [] else Digits(n / 10, width - 1) + [DigitChar(n % 10)]
  }

  /** int(s) for a string of decimal digits. */
  function Number(s: string): (n: nat)
    requires AllDigits(s)
    ensures n < Pow10(|s|)
  {
    if s == [] then 0
    else
      var n' := Number(s[..|s| - 1]);
      var d := s[|s| - 1] as int - 48;
      assert n' * 10 + d < 10 * Pow10(|s| - 1) by {
        assert n' + 1 <= Pow10(|s| - 1);
        assert (n' + 1) * 10 <= Pow10(|s| - 1) * 10;
      }
      n' * 10 + d
  }

  lemma {:induction false} NumberOfDigits(n: nat, w: nat)
    requires n < Pow10(w)
    ensures Number(Digits(n, w)) == n
  {
    if w > 0 {
      var s := Digits(n, w);
      assert s[..w - 1] == Digits(n / 10, w - 1);
      assert n / 10 < Pow10(w - 1);
      NumberOfDigits(n / 10, w - 1);
    }
  }

  lemma {:induction false} DigitsOfNumber(s: string)
    requires AllDigits(s)
    ensures Digits(Number(s), |s|) == s
  {
    if s != [] {
      var init := s[..|s| - 1];
      var n := Number(s);
      assert n / 10 == Number(init) && n % 10 == s[|s| - 1] as int - 48;
      DigitsOfNumber(init);
      assert s == init + [s[|s| - 1]];
    }
  }

  lemma LessSingle(a: char, b: char)
    ensures Less([a], [b]) <==> a < b
  {
    assert [a][1..] == [] && [b][1..] == [];
  }

  lemma DecimalOrder(n: nat, m: nat)
    ensures n < m <==> n / 10 < m / 10 || (n / 10 == m / 10 && n % 10 < m % 10)
  {
  }

  /** Fixed-width decimal strings compare like the numbers they spell. */
  lemma {:induction false} DigitsOrder(n: nat, m: nat, w: nat)
    requires n < Pow10(w) && m < Pow10(w)
    ensures Less(Digits(n, w), Digits(m, w)) <==> n < m
  {
    if w > 0 {
      var cn, cm := DigitChar(n % 10), DigitChar(m % 10);
      var hn, hm := Digits(n / 10, w - 1), Digits(m / 10, w - 1);
      assert Less(hn + [cn], hm + [cm]) <==> Less(hn, hm) || (hn == hm && cn < cm) by {
        LessConcat(hn, hm, [cn], [cm]);
        LessSingle(cn, cm);
      }
      assert Less(hn, hm) <==> n / 10 < m / 10 by {
        DigitsOrder(n / 10, m / 10, w - 1);
      }
      assert hn == hm <==> n / 10 == m / 10 by {
        NumberOfDigits(n / 10, w - 1);
        NumberOfDigits(m / 10, w - 1);
      }
      assert cn < cm <==> n % 10 < m % 10;
      DecimalOrder(n, m);
    }
  }

  /** month_key_from_dt: f"{year:04d}-{month:02d}". */
  function MonthKey(ym: YearMonth): (k: string)
    ensures |k| == 7 && k[4] == '-'
    ensures '.' !in k
  {
    Digits(ym.year, 4) + "-" + Digits(ym.month, 2)
  }

  /** The `y, m = mk.split("-")` then `datetime(int(y), int(m), 1)` of
      prune_old_archives: None where Python raises. */
  function ParseMonthKey(k: string): (r: Option<YearMonth>)
    ensures r.Some? ==> |k| == 7 && k[4] == '-'
    ensures r.Some? ==> 1 <= r.value.year <= 9999 && 1 <= r.value.month <= 12
  {
    if |k| == 7 && k[4] == '-' && AllDigits(k[..4]) && AllDigits(k[5..]) then
      var y := Number(k[..4]);
      var m := Number(k[5..]);
      if 1 <= y && 1 <= m <= 12 then
        assert y < Pow10(4) == 10000;
        Some(YearMonth(y, m))
      else None
    else None
  }

  /** Formatting a month and parsing the key back gives the month. */
  lemma MonthKeyRoundTrip(ym: YearMonth)
    ensures ParseMonthKey(MonthKey(ym)) == Some(ym)
  {
    var k := MonthKey(ym);
    assert k[..4] == Digits(ym.year, 4) && k[5..] == Digits(ym.month, 2);
    assert Pow10(4) == 10000 && Pow10(2) == 100;
    NumberOfDigits(ym.year, 4);
    NumberOfDigits(ym.month, 2);
  }

  /** Only canonical keys parse: a parsed key is the key of its month. */
  lemma ParseMonthKeyCanonical(k: string)
    requires ParseMonthKey(k).Some?
    ensures MonthKey(ParseMonthKey(k).value) == k
  {
    DigitsOfNumber(k[..4]);
    DigitsOfNumber(k[5..]);
    assert k == k[..4] + "-" + k[5..];
  }

  /** Chronological order of months. */
  predicate Before(a: YearMonth, b: YearMonth) {
    a.year < b.year || (a.year == b.year && a.month < b.month)
  }

  /** Keys sort as strings exactly in chronological order. */
  lemma MonthKeyOrder(a: YearMonth, b: YearMonth)
    ensures Less(MonthKey(a), MonthKey(b)) <==> Before(a, b)
  {
    var ya, yb := Digits(a.year, 4), Digits(b.year, 4);
    var ma, mb := Digits(a.month, 2), Digits(b.month, 2);
    assert MonthKey(a) == ya + ("-" + ma) && MonthKey(b) == yb + ("-" + mb);
    assert Pow10(4) == 10000 && Pow10(2) == 100;
    LessConcat(ya, yb, "-" + ma, "-" + mb);
    DigitsOrder(a.year, b.year, 4);
    DigitsOrder(a.month, b.month, 2);
    NumberOfDigits(a.year, 4);
    NumberOfDigits(b.year, 4);
    assert ("-" + ma)[1..] == ma && ("-" + mb)[1..] == mb;
  }

  /** Months since January of year 1. */
  function MonthIndex(ym: YearMonth): nat {
    (ym.year - 1) * 12 + (ym.month - 1)
  }

  /** The month with a given index; year 9999 is datetime's last. */
  function FromIndex(i: nat): (ym: YearMonth)
    requires i < 9999 * 12
    ensures MonthIndex(ym) == i
  {
    YearMonth(i / 12 + 1, i % 12 + 1)
  }

  lemma FromMonthIndex(ym: YearMonth)
    ensures FromIndex(MonthIndex(ym)) == ym
  {
  }

  lemma BeforeByIndex(a: YearMonth, b: YearMonth)
    ensures Before(a, b) <==> MonthIndex(a) < MonthIndex(b)
  {
  }

  /** prune_old_archives deletes a month when its first day is strictly before
      the first day of the month KEEP_YEARS years before `now`. */
  predicate IsPruned(ym: YearMonth, now: YearMonth) {
    var cutoffYear := now.year - KEEP_YEARS;
    ym.year < cutoffYear || (ym.year == cutoffYear && ym.month < now.month)
  }

  /** The retention window holds the current month and the 12 * KEEP_YEARS
      months before it; the cutoff month itself is kept. */
  lemma PruneWindow(ym: YearMonth, now: YearMonth)
    ensures IsPruned(ym, now) <==> MonthIndex(ym) + 12 * KEEP_YEARS < MonthIndex(now)
  {
  }

  /** The key of the month with index `i`. */
  function KeyOfIndex(i: nat): string
    requires i < 9999 * 12
  {
    MonthKey(FromIndex(i))
  }

  lemma KeyOfIndexOrder(i: nat, j: nat)
    requires i < j < 9999 * 12
    ensures Less(KeyOfIndex(i), KeyOfIndex(j))
  {
    MonthKeyOrder(FromIndex(i), FromIndex(j));
  }

  /** The keys of the n months ending with month `last`, newest first, are
      strictly descending. */
  lemma NewestFirstDescending(raw: seq<string>, last: nat, n: nat)
    requires n <= last + 1 && last < 9999 * 12
    requires |raw| == n && forall j :: 0 <= j < n ==> raw[j] == KeyOfIndex(last - j)
    ensures forall i, j :: 0 <= i < j < |raw| ==> Less(raw[j], raw[i])
  {
    forall i, j | 0 <= i < j < n ensures Less(raw[j], raw[i]) {
      KeyPair(raw[j], raw[i], last - j, last - i);
    }
  }

  lemma KeyPair(a: string, b: string, p: nat, q: nat)
    requires p < q < 9999 * 12 && a == KeyOfIndex(p) && b == KeyOfIndex(q)
    ensures Less(a, b)
  {
    KeyOfIndexOrder(p, q);
  }

  /** `m` is the key of one of the n months ending with the month of index
      `last`. */
  predicate InWindow(m: string, last: nat, n: nat) {
    ParseMonthKey(m).Some? &&
    var i := MonthIndex(ParseMonthKey(m).value); i <= last < i + n
  }

  /** The keys of the n months ending with month `last`, newest first, are
      exactly the strings in that window. */
  lemma WindowMembers(raw: seq<string>, last: nat, n: nat)
    requires n <= last + 1 && last < 9999 * 12
    requires |raw| == n && forall j :: 0 <= j < n ==> raw[j] == KeyOfIndex(last - j)
    ensures forall m :: m in raw <==> InWindow(m, last, n)
  {
    forall m ensures m in raw <==> InWindow(m, last, n) {
      if m in raw {
        var j :| 0 <= j < n && raw[j] == m;
        MonthKeyRoundTrip(FromIndex(last - j));
      }
      if InWindow(m, last, n) {
        var ym := ParseMonthKey(m).value;
        ParseMonthKeyCanonical(m);
        FromMonthIndex(ym);
        assert raw[last - MonthIndex(ym)] == m;
      }
    }
  }

  /** months_back_list: the keys of the current month and the n - 1 months
      before it, ascending. */
  method MonthsBackList(now: YearMonth, n: nat) returns (keys: seq<string>)
    requires n <= MonthIndex(now) + 1
    ensures |keys| == n
    ensures StrictlyAscending(keys)
    ensures forall m :: m in keys <==> InWindow(m, MonthIndex(now), n)
  {
    var base := MonthIndex(now);
    var raw: seq<string> := [];
    for i := 0 to n
      invariant |raw| == i
      invariant forall j :: 0 <= j < i ==> raw[j] == KeyOfIndex(base - j)
    {
      raw := raw + [KeyOfIndex(base - i)];
    }
    keys := SortedSet(raw);
    assert keys == Reverse(raw) by {
      NewestFirstDescending(raw, base, n);
      AscendingOfDescending(raw, keys);
    }
    WindowMembers(raw, base, n);
  }
}
