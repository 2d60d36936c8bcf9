/** generate_latest (scripts/collect.py): the records of the archive months
    inside the latest window, one per link, the freshest kept, newest
    first. */
module Latest {
  import opened Order
  import opened Months
  import opened Records
  import opened Archive

  /** A month key of the LATEST_MONTHS months ending with `now`. */
  predicate InLatest(m: string, now: YearMonth) {
    InWindow(m, MonthIndex(now), LATEST_MONTHS)
  }

  /** [m for m in ms if m in want] */
  function Keep(ms: seq<string>, want: set<string>): (r: seq<string>)
    ensures forall m :: m in r <==> m in ms && m in want
  {
    if ms == [] then []
    else
      var rest := Keep(ms[..|ms| - 1], want);
      var m := ms[|ms| - 1];
      assert ms == ms[..|ms| - 1] + [m];
      if m in want then rest + [m] else rest
  }

  /** The listed months generate_latest reads, in listing order. */
  function TargetMonths(listed: seq<string>, now: YearMonth): (r: seq<string>)
    ensures forall m :: m in r <==> m in listed && InLatest(m, now)
  {
    if listed == [] then []
    else
      var rest := TargetMonths(listed[..|listed| - 1], now);
      var m := listed[|listed| - 1];
      assert listed == listed[..|listed| - 1] + [m];
      if InLatest(m, now) then rest + [m] else rest
  }

  /** Filtering by the keys months_back_list returns is filtering by the
      window. */
  lemma {:induction false} KeepWindow(ms: seq<string>, want: set<string>, now: YearMonth)
    requires forall m :: m in want <==> InLatest(m, now)
    ensures Keep(ms, want) == TargetMonths(ms, now)
  {
    if ms != [] {
      KeepWindow(ms[..|ms| - 1], want, now);
    }
  }

  /** The records of the month files, file after file. */
  function Gather(archive: Archive, ms: seq<string>): seq<Record> {
    if ms == [] then [] else Gather(archive, ms[..|ms| - 1]) + Existing(archive, ms[|ms| - 1])
  }

  lemma {:induction false} GatherMembers(archive: Archive, ms: seq<string>)
    ensures forall r :: r in Gather(archive, ms) ==> exists m :: m in ms && r in Existing(archive, m)
  {
    if ms != [] {
      var init := ms[..|ms| - 1];
      GatherMembers(archive, init);
      forall r | r in Gather(archive, ms) ensures exists m :: m in ms && r in Existing(archive, m) {
        if r in Gather(archive, init) {
          var m :| m in init && r in Existing(archive, m);
          assert m in ms;
        } else {
          assert ms[|ms| - 1] in ms;
        }
      }
    }
  }

  /** The content generate_latest writes for the months `ms`. */
  function LatestOf(archive: Archive, ms: seq<string>): seq<Record> {
    SortDesc(Freshest(Linked(Gather(archive, ms))), PubDate)
  }

  /** The records of the files of `ms`, read one after the other. */
  method GatherMonths(archive: Archive, ms: seq<string>) returns (items: seq<Record>)
    ensures items == Gather(archive, ms)
  {
    items := [];
    for i := 0 to |ms|
      invariant items == Gather(archive, ms[..i])
    {
      assert ms[..i + 1][..i] == ms[..i];
      items := items + Existing(archive, ms[i]);
    }
    assert ms[..|ms|] == ms;
  }

  /** One more record for the dictionary of freshest records. */
  lemma BestStep(ys: seq<Record>, x: Record)
    ensures var m := Best(ys);
            Best(ys + [x]) == if x.link !in m || Less(m[x.link].pubDate, x.pubDate) then m[x.link := x] else m
    ensures LinkOrder(ys + [x]) == if x.link in Best(ys) then LinkOrder(ys) else LinkOrder(ys) + [x.link]
  {
    assert (ys + [x])[..|ys|] == ys;
  }

  /** One step of the best-per-link loop over `xs`: the dictionary and its
      key order for `xs[..i + 1]`, from those for `xs[..i]`. */
  lemma DedupeStep(xs: seq<Record>, i: nat, best: map<string, Record>, order: seq<string>)
    requires i < |xs|
    requires best == Best(Linked(xs[..i])) && order == LinkOrder(Linked(xs[..i]))
    ensures var x := xs[i];
            var next := if x.link == "" then (best, order)
                        else if x.link !in best then (best[x.link := x], order + [x.link])
                        else if Less(best[x.link].pubDate, x.pubDate) then (best[x.link := x], order)
                        else (best, order);
            next.0 == Best(Linked(xs[..i + 1])) && next.1 == LinkOrder(Linked(xs[..i + 1]))
  {
    assert xs[..i + 1][..i] == xs[..i];
    if xs[i].link != "" {
      var ys := Linked(xs[..i]);
      assert Linked(xs[..i + 1]) == ys + [xs[i]];
      BestStep(ys, xs[i]);
    }
  }

  /** The best-per-link loop of generate_latest: records without a link are
      skipped, a later record replaces the kept one only when its pubDate is
      greater. */
  method DedupeLinked(items: seq<Record>) returns (out: seq<Record>)
    ensures out == Freshest(Linked(items))
  {
    var best: map<string, Record> := map[];
    var order: seq<string> := [];
    for i := 0 to |items|
      invariant best == Best(Linked(items[..i]))
      invariant order == LinkOrder(Linked(items[..i]))
    {
      DedupeStep(items, i, best, order);
      var it := items[i];
      var lk := it.link;
      if lk == "" {
        continue;
      }
      if lk !in best {
        best := best[lk := it];
        order := order + [lk];
      } else if Less(best[lk].pubDate, it.pubDate) {
        best := best[lk := it];
      }
    }
    assert items[..|items|] == items;
    out := seq(|order|, i requires 0 <= i < |order| => best[order[i]]);
  }

  /** generate_latest: merges the window's month files, keeps the freshest
      record per non-empty link and sorts newest first. */
  method GenerateLatest(now: YearMonth, listed: seq<string>, archive: Archive) returns (latest: seq<Record>)
    requires LATEST_MONTHS <= MonthIndex(now) + 1
    ensures latest == LatestOf(archive, TargetMonths(listed, now))
  {
    var want := MonthsBackList(now, LATEST_MONTHS);
    var wantSet := set k | k in want;
    var target := Keep(listed, wantSet);
    KeepWindow(listed, wantSet, now);
    var items := GatherMonths(archive, target);
    var merged := DedupeLinked(items);
    latest := SortDesc(merged, PubDate);
  }

  /** Sorting the freshest records per link, newest first: one record per
      link of the pool, each from the pool, none older than another record of
      its link. */
  lemma SortedFreshest(pool: seq<Record>)
    ensures var out := SortDesc(Freshest(pool), PubDate);
            && SortedDesc(out, PubDate)
            && DistinctBy(out, Link)
            && Links(out) == Links(pool)
            && (forall r :: r in out ==> r in pool)
            && (forall r, x :: r in out && x in pool && x.link == r.link ==> !Less(r.pubDate, x.pubDate))
  {
    var f := Freshest(pool);
    var out := SortDesc(f, PubDate);
    FreshestSpec(pool);
    SortDescSorted(f, PubDate);
    SortDescDistinct(f, PubDate, Link);
    SameElements(out, f);
    assert Links(out) == Links(f);
    forall r, x | r in out && x in pool && x.link == r.link ensures !Less(r.pubDate, x.pubDate) {
      var i :| 0 <= i < |f| && f[i] == r;
      var j :| 0 <= j < |pool| && pool[j] == x;
      BestMaximal(pool, r.link);
    }
  }

  /** What generate_latest promises: only records with a link, drawn from
      listed months inside the window; one per link, every link of those
      records present, none with an older pubDate than another record of its
      link; newest first. */
  lemma LatestSpec(archive: Archive, listed: seq<string>, now: YearMonth)
    ensures var ms := TargetMonths(listed, now);
            var pool := Linked(Gather(archive, ms));
            var out := LatestOf(archive, ms);
            && SortedDesc(out, PubDate)
            && DistinctBy(out, Link)
            && Links(out) == Links(pool)
            && (forall r :: r in out ==> r.link != "" && exists m :: m in listed && InLatest(m, now) && r in Existing(archive, m))
            && (forall r, x :: r in out && x in pool && x.link == r.link ==> !Less(r.pubDate, x.pubDate))
  {
    var ms := TargetMonths(listed, now);
    SortedFreshest(Linked(Gather(archive, ms)));
    GatherMembers(archive, ms);
  }
}
