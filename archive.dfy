/** The month-partitioned archive of scripts/collect.py: where a month's file
    lives, upsert_archive, list_months_in_archive and prune_old_archives.
    The archive's contents are a map from month key to the records of that
    month's file (as read_ndjson_gz returns them); a key that is absent is a
    file that does not exist. */
module Archive {
  import opened Wrappers
  import opened Text
  import opened Order
  import opened Months
  import opened Records
  import opened Ndjson

  type Archive = map<string, seq<Record>>

  const ARCHIVE_SUFFIX := ".ndjson.gz"

  /** archive_path_for_month: the year directory and the file name of a
      month key; None where the key does not split into exactly two parts at
      '-' (Python raises). */
  function ArchivePath(mk: string): (p: Option<(string, string)>)
    ensures p.Some? <==> CountChar(mk, '-') == 1
    ensures p.Some? ==> EndsWith(p.value.1, ARCHIVE_SUFFIX)
  {
    var parts := Split(mk, '-');
    if |parts| == 2 then
      var name := parts[0] + "-" + parts[1] + ARCHIVE_SUFFIX;
      assert name[|name| - |ARCHIVE_SUFFIX|..] == ARCHIVE_SUFFIX;
      Some((parts[0], name))
    else None
  }

  lemma DigitsNoDash(s: string)
    requires AllDigits(s)
    ensures '-' !in s
  {
  }

  /** A month's file is `<yyyy>/<yyyy-mm>.ndjson.gz`. */
  lemma MonthKeyPath(ym: YearMonth)
    ensures ArchivePath(MonthKey(ym)) == Some((Digits(ym.year, 4), MonthKey(ym) + ARCHIVE_SUFFIX))
  {
    var y, m := Digits(ym.year, 4), Digits(ym.month, 2);
    var k := MonthKey(ym);
    assert k == y + ['-'] + m;
    DigitsNoDash(y);
    DigitsNoDash(m);
    CountCharAbsent(y, '-');
    CountCharAbsent(m, '-');
    CountCharConcat(y + ['-'], m, '-');
    CountCharConcat(y, ['-'], '-');
    assert CountChar(['-'], '-') == 1 by {
      assert ['-'][..0] == [];
    }
    var parts := Split(k, '-');
    JoinSplit(k, '-');
    assert parts[..1] == [parts[0]];
    assert Join(parts, ['-']) == parts[0] + ['-'] + parts[1];
    SplitAtSole(parts[0], parts[1], y, m, '-');
  }

  /** An entry of the archive directory and the names of the entries inside
      it. */
  datatype DirEntry = DirEntry(name: string, isDir: bool, files: seq<string>)

  /** The glob [0-9][0-9][0-9][0-9]. */
  predicate IsYearName(n: string) {
    |n| == 4 && AllDigits(n)
  }

  /** The filename filter: a stem of length 7 with '-' at index 4. */
  predicate IsMonthShape(stem: string) {
    |stem| == 7 && stem[4] == '-'
  }

  /** The month a file of a directory is listed under, if any. */
  function StemOf(d: DirEntry, f: string): Option<string> {
    var stem := RemoveAll(f, ARCHIVE_SUFFIX);
    if IsYearName(d.name) && d.isDir && EndsWith(f, ARCHIVE_SUFFIX) && IsMonthShape(stem) then Some(stem)
    else None
  }

  /** The listing finds `stem` in some file of some directory. */
  ghost predicate Listed(dirs: seq<DirEntry>, stem: string) {
    exists i, j :: 0 <= i < |dirs| && 0 <= j < |dirs[i].files| && StemOf(dirs[i], dirs[i].files[j]) == Some(stem)
  }

  /** StemOf for the files of one directory. */
  function StemIn(d: DirEntry): string -> Option<string> {
    f => StemOf(d, f)
  }

  /** The stems kept from one directory's files, in order. */
  function FileStems(d: DirEntry, files: seq<string>): seq<string> {
    FilterMap(files, StemIn(d))
  }

  /** The stems kept from the directories, before sorted(set(...)). */
  function Stems(dirs: seq<DirEntry>): seq<string> {
    if dirs == [] then []
    else
      var d := dirs[|dirs| - 1];
      var rest := Stems(dirs[..|dirs| - 1]);
      if IsYearName(d.name) && d.isDir then rest + FileStems(d, d.files) else rest
  }

  lemma FileStemsMembers(d: DirEntry, files: seq<string>)
    ensures forall m :: m in FileStems(d, files) <==> exists j :: 0 <= j < |files| && StemOf(d, files[j]) == Some(m)
  {
    FilterMapMembers(files, StemIn(d));
  }

  lemma {:induction false} StemsListed(dirs: seq<DirEntry>)
    ensures forall m :: m in Stems(dirs) <==> Listed(dirs, m)
  {
    if dirs != [] {
      var init, d := dirs[..|dirs| - 1], dirs[|dirs| - 1];
      StemsListed(init);
      FileStemsMembers(d, d.files);
      forall m ensures m in Stems(dirs) <==> Listed(dirs, m) {
        if Listed(dirs, m) {
          var i, j :| 0 <= i < |dirs| && 0 <= j < |dirs[i].files| && StemOf(dirs[i], dirs[i].files[j]) == Some(m);
          if i < |init| {
            assert init[i] == dirs[i];
            assert Listed(init, m);
          }
        }
        if m in Stems(init) {
          var i, j :| 0 <= i < |init| && 0 <= j < |init[i].files| && StemOf(init[i], init[i].files[j]) == Some(m);
          assert dirs[i] == init[i];
        }
        if m in FileStems(d, d.files) {
          var j :| 0 <= j < |d.files| && StemOf(d, d.files[j]) == Some(m);
          assert dirs[|dirs| - 1] == d;
        }
      }
    }
  }

  /** The stems of one year directory's files (the inner loop). */
  method ListDirectory(d: DirEntry) returns (stems: seq<string>)
    requires IsYearName(d.name) && d.isDir
    ensures stems == FileStems(d, d.files)
  {
    stems := [];
    for j := 0 to |d.files|
      invariant stems == FileStems(d, d.files[..j])
    {
      assert d.files[..j + 1][..j] == d.files[..j];
      var f := d.files[j];
      assert FileStems(d, d.files[..j + 1]) == FileStems(d, d.files[..j]) + Present(StemOf(d, f));
      if !EndsWith(f, ARCHIVE_SUFFIX) {
        continue;
      }
      var stem := RemoveAll(f, ARCHIVE_SUFFIX);
      if |stem| == 7 && stem[4] == '-' {
        stems := stems + [stem];
      }
    }
    assert d.files[..|d.files|] == d.files;
  }

  /** list_months_in_archive: the month stems found in the year directories,
      sorted and without duplicates. */
  method ListMonthsInArchive(dirs: seq<DirEntry>) returns (months: seq<string>)
    ensures StrictlyAscending(months)
    ensures forall m :: m in months <==> Listed(dirs, m)
    ensures forall m :: m in months ==> IsMonthShape(m)
  {
    var raw: seq<string> := [];
    for i := 0 to |dirs|
      invariant raw == Stems(dirs[..i])
    {
      assert dirs[..i + 1][..i] == dirs[..i];
      var d := dirs[i];
      if !(|d.name| == 4 && AllDigits(d.name)) || !d.isDir {
        continue;
      }
      var stems := ListDirectory(d);
      raw := raw + stems;
    }
    assert dirs[..|dirs|] == dirs;
    months := SortedSet(raw);
    StemsListed(dirs);
    forall m | m in months ensures IsMonthShape(m) {
      var i, j :| 0 <= i < |dirs| && 0 <= j < |dirs[i].files| && StemOf(dirs[i], dirs[i].files[j]) == Some(m);
    }
  }

  /** A month file written where archive_path_for_month puts it is listed
      under its month's key. */
  lemma WrittenFileListed(ym: YearMonth, dirs: seq<DirEntry>, i: nat, j: nat)
    requires i < |dirs| && dirs[i].isDir && j < |dirs[i].files|
    requires ArchivePath(MonthKey(ym)).Some?
    requires dirs[i].name == ArchivePath(MonthKey(ym)).value.0
    requires dirs[i].files[j] == ArchivePath(MonthKey(ym)).value.1
    ensures Listed(dirs, MonthKey(ym))
  {
    var k := MonthKey(ym);
    MonthKeyPath(ym);
    assert '.' !in k;
    RemoveAllSuffix(k, ARCHIVE_SUFFIX);
    assert StemOf(dirs[i], dirs[i].files[j]) == Some(k);
  }

  // ---------------------------------------------------------------------
  // upsert_archive

  /** The records of a month's file; a missing file reads as none. */
  function Existing(archive: Archive, mk: string): seq<Record> {
    if mk in archive then archive[mk] else []
  }

  function MonthOf(r: Record, jstMonth: string -> YearMonth): string {
    MonthKey(jstMonth(r.pubDate))
  }

  /** by_month[mk]: the items of month `mk`, in order. */
  function MonthBatch(items: seq<Record>, mk: string, jstMonth: string -> YearMonth): (r: seq<Record>)
    ensures forall x :: x in r <==> x in items && MonthOf(x, jstMonth) == mk
  {
    if items == [] then []
    else
      var rest := MonthBatch(items[..|items| - 1], mk, jstMonth);
      var x := items[|items| - 1];
      assert items == items[..|items| - 1] + [x];
      if MonthOf(x, jstMonth) == mk then rest + [x] else rest
  }

  /** The keys of by_month in insertion order. */
  function MonthOrder(items: seq<Record>, jstMonth: string -> YearMonth): (o: seq<string>)
    ensures forall mk :: mk in o <==> MonthBatch(items, mk, jstMonth) != []
  {
    if items == [] then []
    else
      var rest := MonthOrder(items[..|items| - 1], jstMonth);
      var x := items[|items| - 1];
      assert forall mk :: MonthBatch(items, mk, jstMonth) != [] <==>
               MonthBatch(items[..|items| - 1], mk, jstMonth) != [] || MonthOf(x, jstMonth) == mk;
      if MonthOf(x, jstMonth) in rest then rest else rest + [MonthOf(x, jstMonth)]
  }

  lemma {:induction false} MonthOrderDistinct(items: seq<Record>, jstMonth: string -> YearMonth)
    ensures forall i, j :: 0 <= i < j < |MonthOrder(items, jstMonth)| ==> MonthOrder(items, jstMonth)[i] != MonthOrder(items, jstMonth)[j]
  {
    if items != [] {
      var init := items[..|items| - 1];
      MonthOrderDistinct(init, jstMonth);
      var o0, o := MonthOrder(init, jstMonth), MonthOrder(items, jstMonth);
      forall i, j | 0 <= i < j < |o| ensures o[i] != o[j] {
        if j == |o0| {
          assert o[i] == o0[i] && o0[i] in o0;
        } else {
          assert o[i] == o0[i] && o[j] == o0[j];
        }
      }
    }
  }

  /** new_items: a record is admitted when its link is neither in `seen` nor
      already admitted. */
  function Admitted(arr: seq<Record>, seen: set<string>): (r: seq<Record>)
    ensures forall x :: x in r ==> x in arr
  {
    if arr == [] then []
    else
      var rest := Admitted(arr[..|arr| - 1], seen);
      var x := arr[|arr| - 1];
      assert arr == arr[..|arr| - 1] + [x];
      if x.link in seen || x.link in Links(rest) then rest else rest + [x]
  }

  /** The admitted records carry no link of `seen`, no link twice, and every
      link of `arr` outside `seen` is admitted. */
  lemma {:induction false} AdmittedSpec(arr: seq<Record>, seen: set<string>)
    ensures var r := Admitted(arr, seen);
            && (forall x :: x in r ==> x.link !in seen)
            && DistinctBy(r, Link)
            && Links(r) == Links(arr) - seen
  {
    if arr != [] {
      var init, x := arr[..|arr| - 1], arr[|arr| - 1];
      AdmittedSpec(init, seen);
      var rest := Admitted(init, seen);
      LinksSnoc(arr);
      if !(x.link in seen || x.link in Links(rest)) {
        var r := rest + [x];
        LinksSnoc(r);
        assert r[..|r| - 1] == rest;
        forall i, j | 0 <= i < j < |r| ensures Link(r[i]) != Link(r[j]) {
          if j == |rest| {
            assert r[i] == rest[i] && rest[i] in rest;
          } else {
            assert r[i] == rest[i] && r[j] == rest[j];
          }
        }
      }
    }
  }

  /** The inner loop of upsert_archive, growing `seen` as it admits. */
  method SelectNew(arr: seq<Record>, seen: set<string>) returns (newItems: seq<Record>)
    ensures newItems == Admitted(arr, seen)
  {
    newItems := [];
    var s := seen;
    for i := 0 to |arr|
      invariant newItems == Admitted(arr[..i], seen)
      invariant s == seen + Links(newItems)
    {
      assert arr[..i + 1][..i] == arr[..i];
      var it := arr[i];
      if it.link in s {
        continue;
      }
      LinksSnoc(newItems + [it]);
      assert (newItems + [it])[..|newItems|] == newItems;
      newItems := newItems + [it];
      s := s + {it.link};
    }
    assert arr[..|arr|] == arr;
  }

  /** The records upsert_archive adds to month `mk`. */
  function NewFor(archive: Archive, latest: set<string>, items: seq<Record>, jstMonth: string -> YearMonth, mk: string): seq<Record> {
    Admitted(MonthBatch(items, mk, jstMonth), LinksPresent(Existing(archive, mk)) + latest)
  }

  /** The rewritten file of month `mk`: existing + new, newest first. */
  function Merged(archive: Archive, latest: set<string>, items: seq<Record>, jstMonth: string -> YearMonth, mk: string): seq<Record> {
    SortDesc(Existing(archive, mk) + NewFor(archive, latest, items, jstMonth, mk), PubDate)
  }

  /** Month `mk` after the upsert: rewritten when it gained records, else as
      it was. */
  predicate UpsertedAt(updated: Archive, archive: Archive, latest: set<string>, items: seq<Record>, jstMonth: string -> YearMonth, mk: string) {
    var gain := NewFor(archive, latest, items, jstMonth, mk);
    && (mk in updated <==> mk in archive || gain != [])
    && (mk in updated ==> updated[mk] == if gain != [] then Merged(archive, latest, items, jstMonth, mk) else archive[mk])
  }

  /** added_total over the months `ms`. */
  function AddedFor(archive: Archive, latest: set<string>, items: seq<Record>, jstMonth: string -> YearMonth, ms: seq<string>): nat {
    if ms == [] then 0
    else AddedFor(archive, latest, items, jstMonth, ms[..|ms| - 1]) + |NewFor(archive, latest, items, jstMonth, ms[|ms| - 1])|
  }

  /** by_month: the items grouped by month key, keys in first-seen order. */
  method GroupByMonth(items: seq<Record>, jstMonth: string -> YearMonth) returns (byMonth: map<string, seq<Record>>, order: seq<string>)
    ensures order == MonthOrder(items, jstMonth)
    ensures forall mk :: mk in byMonth <==> mk in order
    ensures forall mk :: mk in byMonth ==> byMonth[mk] == MonthBatch(items, mk, jstMonth)
  {
    byMonth := map[];
    order := [];
    for i := 0 to |items|
      invariant order == MonthOrder(items[..i], jstMonth)
      invariant forall mk :: mk in byMonth <==> mk in order
      invariant forall mk :: mk in byMonth ==> byMonth[mk] == MonthBatch(items[..i], mk, jstMonth)
    {
      assert items[..i + 1][..i] == items[..i];
      var it := items[i];
      var mk := MonthKey(jstMonth(it.pubDate));
      if mk !in byMonth {
        byMonth := byMonth[mk := []];
        order := order + [mk];
      }
      byMonth := byMonth[mk := byMonth[mk] + [it]];
    }
    assert items[..|items|] == items;
  }

  /** upsert_archive: per month, the items whose link is in neither that
      month's file nor the latest set are appended and the file re-sorted
      newest first; months that gain nothing are not rewritten. Returns the
      new archive and the number of records added. */
  method UpsertArchive(archive: Archive, latest: set<string>, items: seq<Record>, jstMonth: string -> YearMonth)
    returns (updated: Archive, added: nat)
    ensures forall mk :: UpsertedAt(updated, archive, latest, items, jstMonth, mk)
    ensures added == AddedFor(archive, latest, items, jstMonth, MonthOrder(items, jstMonth))
  {
    var byMonth, order := GroupByMonth(items, jstMonth);
    MonthOrderDistinct(items, jstMonth);
    updated := archive;
    added := 0;
    for j := 0 to |order|
      invariant forall mk :: mk !in order[..j] ==> UnchangedAt(updated, archive, mk)
      invariant forall mk :: mk in order[..j] ==> UpsertedAt(updated, archive, latest, items, jstMonth, mk)
      invariant added == AddedFor(archive, latest, items, jstMonth, order[..j])
    {
      var mk := order[j];
      TakeSnoc(order, j);
      assert mk !in order[..j];
      assert Existing(updated, mk) == Existing(archive, mk);
      ghost var before := updated;
      var gained;
      updated, gained := UpsertMonth(updated, latest, byMonth[mk], mk);
      added := added + gained;
      UpsertStep(before, updated, archive, latest, items, jstMonth, order[..j], mk);
    }
    assert order[..|order|] == order;
    forall mk | mk !in order ensures UpsertedAt(updated, archive, latest, items, jstMonth, mk) {
      assert MonthBatch(items, mk, jstMonth) == [];
    }
  }

  /** The body of upsert_archive's month loop: the records of `arr` whose
      link is in neither the month's file nor `latest` are appended and the
      file re-sorted newest first; a month that gains nothing is left as it
      is. */
  method UpsertMonth(archive: Archive, latest: set<string>, arr: seq<Record>, mk: string)
    returns (updated: Archive, gained: nat)
    ensures var existing := Existing(archive, mk);
            var newItems := Admitted(arr, LinksPresent(existing) + latest);
            && gained == |newItems|
            && updated == if newItems == [] then archive else archive[mk := SortDesc(existing + newItems, PubDate)]
  {
    var existing := if mk in archive then archive[mk] else [];
    var seen := LinksPresent(existing) + latest;
    var newItems := SelectNew(arr, seen);
    if newItems == [] {
      return archive, 0;
    }
    var merged := SortDesc(existing + newItems, PubDate);
    updated := archive[mk := merged];
    gained := |newItems|;
  }

  /** Month `mk` still holds what it held in `archive`. */
  predicate UnchangedAt(updated: Archive, archive: Archive, mk: string) {
    (mk in updated <==> mk in archive) && (mk in updated ==> updated[mk] == archive[mk])
  }

  /** One round of upsert_archive's month loop: month `mk` is upserted and
      nothing else changes. */
  lemma UpsertStep(before: Archive, after: Archive, archive: Archive, latest: set<string>, items: seq<Record>,
                   jstMonth: string -> YearMonth, done: seq<string>, mk: string)
    requires mk !in done
    requires forall k :: k !in done ==> UnchangedAt(before, archive, k)
    requires forall k :: k in done ==> UpsertedAt(before, archive, latest, items, jstMonth, k)
    requires after == if NewFor(archive, latest, items, jstMonth, mk) == [] then before
                      else before[mk := Merged(archive, latest, items, jstMonth, mk)]
    ensures forall k :: k !in done + [mk] ==> UnchangedAt(after, archive, k)
    ensures forall k :: k in done + [mk] ==> UpsertedAt(after, archive, latest, items, jstMonth, k)
    ensures AddedFor(archive, latest, items, jstMonth, done + [mk]) ==
            AddedFor(archive, latest, items, jstMonth, done) + |NewFor(archive, latest, items, jstMonth, mk)|
  {
    assert (done + [mk])[..|done|] == done;
    assert UnchangedAt(before, archive, mk);
    forall k | k in done + [mk] ensures UpsertedAt(after, archive, latest, items, jstMonth, k) {
      if k != mk {
        assert UpsertedAt(before, archive, latest, items, jstMonth, k);
      }
    }
    forall k | k !in done + [mk] ensures UnchangedAt(after, archive, k) {
      assert UnchangedAt(before, archive, k);
    }
  }

  /** What upsert_archive promises for every month: the records it adds
      carry neither an existing nor a latest link, nor a link twice, and all
      come from that month's items; a rewritten file is a permutation of the
      existing records plus the new ones, so none is lost, and is newest
      first; a month that gains nothing keeps its file as it was. */
  lemma UpsertArchiveSpec(updated: Archive, archive: Archive, latest: set<string>, items: seq<Record>, jstMonth: string -> YearMonth, mk: string)
    requires UpsertedAt(updated, archive, latest, items, jstMonth, mk)
    ensures var gain := NewFor(archive, latest, items, jstMonth, mk);
            && (forall x :: x in gain ==> x in items && MonthOf(x, jstMonth) == mk)
            && (forall x :: x in gain ==> x.link !in latest && x.link !in LinksPresent(Existing(archive, mk)))
            && DistinctBy(gain, Link)
            && (gain == [] ==> (mk in updated <==> mk in archive) && (mk in updated ==> updated[mk] == archive[mk]))
            && (gain != [] ==>
                  && mk in updated
                  && multiset(updated[mk]) == multiset(Existing(archive, mk)) + multiset(gain)
                  && SortedDesc(updated[mk], PubDate))
  {
    var batch := MonthBatch(items, mk, jstMonth);
    var seen := LinksPresent(Existing(archive, mk)) + latest;
    AdmittedSpec(batch, seen);
    var gain := NewFor(archive, latest, items, jstMonth, mk);
    if gain != [] {
      SortDescSorted(Existing(archive, mk) + gain, PubDate);
    }
  }

  /** When no item's link is stored yet and no two items share a link, every
      item is added. */
  lemma {:induction false} AdmittedAll(arr: seq<Record>, seen: set<string>)
    requires DistinctBy(arr, Link)
    requires forall x :: x in arr ==> x.link !in seen
    ensures Admitted(arr, seen) == arr
  {
    if arr != [] {
      var init, x := arr[..|arr| - 1], arr[|arr| - 1];
      assert forall i, j :: 0 <= i < j < |init| ==> Link(init[i]) == Link(arr[i]) && Link(init[j]) == Link(arr[j]);
      AdmittedAll(init, seen);
      assert arr == init + [x];
    }
  }

  // ---------------------------------------------------------------------
  // prune_old_archives

  /** The keys deleted while scanning `listed`, and whether the scan got
      through every key: a key that does not parse as a month raises and ends
      the scan. */
  function PruneScan(listed: seq<string>, now: YearMonth): (r: (set<string>, bool))
  {
    if listed == [] then ({}, true)
    else
      var prev := PruneScan(listed[..|listed| - 1], now);
      var mk := listed[|listed| - 1];
      if !prev.1 then prev
      else match ParseMonthKey(mk)
        case None => (prev.0, false)
        case Some(ym) => (if IsPruned(ym, now) then prev.0 + {mk} else prev.0, true)
  }

  /** The scan finishes exactly when every listed key parses; a deleted key
      is a listed month before the cutoff; and when the scan finishes, every
      listed month before the cutoff is deleted. */
  lemma {:induction false} PruneScanSpec(listed: seq<string>, now: YearMonth)
    ensures PruneScan(listed, now).1 <==> forall i :: 0 <= i < |listed| ==> ParseMonthKey(listed[i]).Some?
    ensures forall mk :: mk in PruneScan(listed, now).0 ==>
              mk in listed && ParseMonthKey(mk).Some? && IsPruned(ParseMonthKey(mk).value, now)
    ensures PruneScan(listed, now).1 ==> forall mk :: mk in listed ==>
              (mk in PruneScan(listed, now).0 <==> IsPruned(ParseMonthKey(mk).value, now))
  {
    if listed != [] {
      var init, mk := listed[..|listed| - 1], listed[|listed| - 1];
      PruneScanSpec(init, now);
      assert listed == init + [mk];
      forall i | 0 <= i < |init| ensures init[i] == listed[i] { }
    }
  }

  /** prune_old_archives over the listed months: deletes the file of every
      month strictly before the cutoff month; `ok` is false when a listed key
      does not parse, which in Python raises after the deletions before it. */
  method PruneOldArchives(archive: Archive, listed: seq<string>, now: YearMonth) returns (remaining: Archive, ok: bool)
    ensures ok == PruneScan(listed, now).1
    ensures remaining == archive - PruneScan(listed, now).0
  {
    remaining := archive;
    ok := true;
    for i := 0 to |listed|
      invariant PruneScan(listed[..i], now).1
      invariant remaining == archive - PruneScan(listed[..i], now).0
    {
      assert listed[..i + 1][..i] == listed[..i];
      var mk := listed[i];
      var parsed := ParseMonthKey(mk);
      if parsed.None? {
        ok := false;
        PruneScanStops(listed, i + 1, now);
        return;
      }
      if IsPruned(parsed.value, now) {
        remaining := remaining - {mk};
      }
    }
    assert listed[..|listed|] == listed;
  }

  /** Once the scan has stopped it stays stopped. */
  lemma {:induction false} PruneScanStops(listed: seq<string>, n: nat, now: YearMonth)
    requires n <= |listed| && !PruneScan(listed[..n], now).1
    ensures PruneScan(listed, now) == PruneScan(listed[..n], now)
    decreases |listed| - n
  {
    if n < |listed| {
      var next := listed[..n + 1];
      assert next[..n] == listed[..n];
      PruneScanStops(listed, n + 1, now);
    } else {
      assert listed[..n] == listed;
    }
  }
}
