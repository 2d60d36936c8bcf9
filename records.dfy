/** Feed entries, source descriptions and the archive records built from them
    by normalize_entry, plus the freshest-wins dedupe by link that collect_all
    and generate_latest both perform. */
module Records {
  import opened Wrappers
  import opened Text
  import opened Order

  /** A parsed feed entry. An attribute is None when the entry lacks it.
      `published` is the entry's publication time already rendered as an
      ISO-8601 UTC string, when one could be parsed. */
  datatype Entry = Entry(title: Option<string>, link: Option<string>, published: Option<string>)

  /** One configured source; a field is None when its key is absent. */
  datatype Source = Source(name: Option<string>, id: Option<string>, url: Option<string>, category: Option<string>)

  /** An archive record. A field missing from a stored JSON line reads as "",
      which is how the pipeline treats it (`.get(key, "")` or a truthiness
      test). */
  datatype Record = Record(title: string, link: string, pubDate: string, source: string, category: string)

  function PubDate(r: Record): string { r.pubDate }

  function Link(r: Record): string { r.link }

  /** The value is absent or only whitespace. */
  predicate Blank(o: Option<string>) {
    o.None? || IsBlank(o.value)
  }

  /** safe_text: None becomes "", a string loses its surrounding whitespace. */
  function SafeText(o: Option<string>): (r: string)
    ensures IsStripped(r)
    ensures r == "" <==> Blank(o)
  {
    if o.None? then "" else Strip(o.value)
  }

  lemma SafeTextIdempotent(o: Option<string>)
    ensures SafeText(Some(SafeText(o))) == SafeText(o)
  {
    StripStripped(SafeText(o));
  }

  /** normalize_entry: None when the stripped title or link is empty;
      otherwise a record of the stripped title and link, the entry's date or
      `nowIso` when it has none, the source name and the category. */
  function NormalizeEntry(e: Entry, sourceName: string, sourceCategory: string, nowIso: string): (r: Option<Record>)
    ensures r.None? <==> Blank(e.title) || Blank(e.link)
    ensures r.Some? ==> && r.value.title != "" && IsStripped(r.value.title)
                        && r.value.link != "" && IsStripped(r.value.link)
                        && r.value.title == SafeText(e.title) && r.value.link == SafeText(e.link)
                        && r.value.pubDate == (if e.published.Some? then e.published.value else nowIso)
                        && r.value.source == sourceName
                        && r.value.category == sourceCategory
  {
    var title := SafeText(e.title);
    var link := SafeText(e.link);
    if link == "" || title == "" then None
    else
      var pubDate := if e.published.Some? then e.published.value else nowIso;
      Some(Record(title, link, pubDate, sourceName, sourceCategory))
  }

  /** Normalising a normalised record again gives it back unchanged. */
  lemma NormalizeFixpoint(e: Entry, sourceName: string, sourceCategory: string, nowIso: string, later: string)
    requires NormalizeEntry(e, sourceName, sourceCategory, nowIso).Some?
    ensures var r := NormalizeEntry(e, sourceName, sourceCategory, nowIso).value;
            NormalizeEntry(Entry(Some(r.title), Some(r.link), Some(r.pubDate)), r.source, r.category, later) == Some(r)
  {
    var r := NormalizeEntry(e, sourceName, sourceCategory, nowIso).value;
    var again := Entry(Some(r.title), Some(r.link), Some(r.pubDate));
    StripStripped(r.title);
    StripStripped(r.link);
    assert SafeText(again.title) == r.title;
    assert SafeText(again.link) == r.link;
    assert NormalizeEntry(again, r.source, r.category, later) == Some(Record(r.title, r.link, r.pubDate, r.source, r.category));
  }

  /** The links of a sequence of records. */
  function Links(xs: seq<Record>): set<string> {
    set x | x in xs :: x.link
  }

  lemma LinksSnoc(xs: seq<Record>)
    requires xs != []
    ensures Links(xs) == Links(xs[..|xs| - 1]) + {xs[|xs| - 1].link}
  {
    assert xs == xs[..|xs| - 1] + [xs[|xs| - 1]];
  }

  /** The `best` dictionary after scanning `xs`: a record replaces the one
      kept for its link only when its pubDate is strictly greater. */
  function Best(xs: seq<Record>): (m: map<string, Record>)
    ensures m.Keys == Links(xs)
    ensures forall k :: k in m ==> m[k].link == k && m[k] in xs
  {
    if xs == [] then map[]
    else
      var m := Best(xs[..|xs| - 1]);
      var x := xs[|xs| - 1];
      LinksSnoc(xs);
      if x.link !in m || Less(m[x.link].pubDate, x.pubDate) then m[x.link := x] else m
  }

  /** The records that have a link: generate_latest skips the others. */
  function Linked(xs: seq<Record>): (r: seq<Record>)
    ensures forall x :: x in r <==> x in xs && x.link != ""
  {
    if xs == [] then []
    else
      var rest := Linked(xs[..|xs| - 1]);
      var x := xs[|xs| - 1];
      assert xs == xs[..|xs| - 1] + [x];
      if x.link == "" then rest else rest + [x]
  }

  /** The order of the dictionary's keys: each link where it is first seen. */
  function LinkOrder(xs: seq<Record>): (o: seq<string>)
    ensures forall k :: k in o <==> k in Links(xs)
  {
    if xs == [] then []
    else
      var o := LinkOrder(xs[..|xs| - 1]);
      var x := xs[|xs| - 1];
      LinksSnoc(xs);
      if x.link in o then o else o + [x.link]
  }

  /** list(best.values()): one record per link, in first-seen link order. */
  function Freshest(xs: seq<Record>): (r: seq<Record>)
  {
    var o := LinkOrder(xs);
    var m := Best(xs);
    seq(|o|, i requires 0 <= i < |o| => m[o[i]])
  }

  lemma {:induction false} LinkOrderDistinct(xs: seq<Record>)
    ensures forall i, j :: 0 <= i < j < |LinkOrder(xs)| ==> LinkOrder(xs)[i] != LinkOrder(xs)[j]
  {
    if xs != [] {
      var init := xs[..|xs| - 1];
      LinkOrderDistinct(init);
      var o0, o := LinkOrder(init), LinkOrder(xs);
      forall i, j | 0 <= i < j < |o| ensures o[i] != o[j] {
        if j == |o0| {
          assert o[i] == o0[i] && o0[i] in o0;
        } else {
          assert o[i] == o0[i] && o[j] == o0[j];
        }
      }
    }
  }

  /** No record of link `k` has a pubDate greater than the one kept. */
  lemma {:induction false} BestMaximal(xs: seq<Record>, k: string)
    requires k in Best(xs)
    ensures forall j :: 0 <= j < |xs| && xs[j].link == k ==> !Less(Best(xs)[k].pubDate, xs[j].pubDate)
  {
    var init, x := xs[..|xs| - 1], xs[|xs| - 1];
    var m0 := Best(init);
    var last := |xs| - 1;
    var top := Best(xs)[k].pubDate;
    forall j | 0 <= j < |xs| && xs[j].link == k ensures !Less(top, xs[j].pubDate) {
      if j == last {
        if top == x.pubDate {
          LessIrreflexive(x.pubDate);
        }
      } else {
        assert xs[j] == init[j] && init[j] in init;
        BestMaximal(init, k);
        if top != m0[k].pubDate {
          NotLessLess(m0[k].pubDate, xs[j].pubDate, x.pubDate);
          LessAsymmetric(xs[j].pubDate, x.pubDate);
        }
      }
    }
  }

  /** Every earlier record of link `k` has a strictly smaller pubDate than
      the one kept: on equal pubDates the first one seen stays. */
  lemma {:induction false} BestFirst(xs: seq<Record>, k: string)
    requires k in Links(xs)
    ensures k in Best(xs)
    ensures exists i :: 0 <= i < |xs| && xs[i] == Best(xs)[k] &&
              forall j :: 0 <= j < i && xs[j].link == k ==> Less(xs[j].pubDate, xs[i].pubDate)
  {
    var init, x := xs[..|xs| - 1], xs[|xs| - 1];
    var m0 := Best(init);
    var b := Best(xs);
    var last := |xs| - 1;
    LinksSnoc(xs);
    assert forall j :: 0 <= j < last ==> xs[j] == init[j];
    if k != x.link || (k in m0 && !Less(m0[k].pubDate, x.pubDate)) {
      BestFirst(init, k);
      var i :| 0 <= i < |init| && init[i] == m0[k] &&
               forall j :: 0 <= j < i && init[j].link == k ==> Less(init[j].pubDate, init[i].pubDate);
      assert xs[i] == b[k];
      assert forall j :: 0 <= j < i && xs[j].link == k ==> Less(xs[j].pubDate, xs[i].pubDate);
    } else if k !in m0 {
      forall j | 0 <= j < last ensures xs[j].link != k {
        assert init[j] in init;
      }
      assert xs[last] == b[k];
    } else {
      BestMaximal(init, k);
      forall j | 0 <= j < last && xs[j].link == k ensures Less(xs[j].pubDate, x.pubDate) {
        NotLessLess(m0[k].pubDate, xs[j].pubDate, x.pubDate);
      }
      assert xs[last] == b[k];
    }
  }

  /** The deduped batch holds exactly the batch's links, each once, and each
      record in it is the one kept for its link. */
  lemma FreshestSpec(xs: seq<Record>)
    ensures var r := Freshest(xs);
            && DistinctBy(r, Link)
            && Links(r) == Links(xs)
            && (forall i :: 0 <= i < |r| ==> r[i] in xs && r[i] == Best(xs)[r[i].link])
  {
    var r := Freshest(xs);
    var o := LinkOrder(xs);
    LinkOrderDistinct(xs);
    var m := Best(xs);
    forall i | 0 <= i < |r| ensures Link(r[i]) == o[i] && r[i] in xs && r[i] == m[r[i].link] {
      assert o[i] in Links(xs);
      assert r[i] == m[o[i]];
    }
    forall i, j | 0 <= i < j < |r| ensures Link(r[i]) != Link(r[j]) {
      assert o[i] != o[j];
    }
    forall k | k in Links(xs) ensures k in Links(r) {
      var i :| 0 <= i < |o| && o[i] == k;
      assert r[i] in r;
    }
  }

  /** Keeping the freshest record per link: after the loop of collect_all,
      `best` and the order of its keys are those of the whole batch. */
  method DedupeNewest(items: seq<Record>) returns (out: seq<Record>)
    ensures out == Freshest(items)
  {
    var best: map<string, Record> := map[];
    var order: seq<string> := [];
    for i := 0 to |items|
      invariant best == Best(items[..i])
      invariant order == LinkOrder(items[..i])
    {
      assert items[..i + 1][..i] == items[..i];
      var it := items[i];
      var lk := it.link;
      if lk !in best {
        best := best[lk := it];
        order := order + [lk];
      } else if Less(best[lk].pubDate, it.pubDate) {
        best := best[lk := it];
      }
    }
    assert items[..|items|] == items;
    out := seq(|order|, i requires 0 <= i < |order| => best[order[i]]);
  }

  /** The name a source is reported under: its name, else its id, else
      "source". */
  function SourceName(s: Source): (r: string)
    ensures IsStripped(r)
    ensures s.name.Some? ==> r == Strip(s.name.value)
    ensures s.name.None? && s.id.Some? ==> r == Strip(s.id.value)
  {
    SafeText(if s.name.Some? then s.name else if s.id.Some? then s.id else Some("source"))
  }

  /** The records normalize_entry keeps from a feed's entries, in order. */
  function NormalizeAll(entries: seq<Entry>, name: string, category: string, nowIso: string): (r: seq<Record>)
    ensures |r| <= |entries|
  {
    if entries == [] then []
    else
      var rest := NormalizeAll(entries[..|entries| - 1], name, category, nowIso);
      match NormalizeEntry(entries[|entries| - 1], name, category, nowIso)
      case Some(it) => rest + [it]
      case None => rest
  }

  /** The list `out` that collect_all builds before its dedupe: sources
      without a url and sources whose fetch failed contribute nothing. */
  function Gathered(sources: seq<Source>, fetch: string -> Option<seq<Entry>>, nowIso: string): (r: seq<Record>)
  {
    if sources == [] then []
    else
      var rest := Gathered(sources[..|sources| - 1], fetch, nowIso);
      var s := sources[|sources| - 1];
      var url := SafeText(s.url);
      if url == "" || fetch(url).None? then rest
      else rest + NormalizeAll(fetch(url).value, SourceName(s), SafeText(s.category), nowIso)
  }

  /** A record normalize_entry can produce: non-empty stripped title and link. */
  predicate WellFormed(r: Record) {
    r.title != "" && IsStripped(r.title) && r.link != "" && IsStripped(r.link)
  }

  lemma {:induction false} NormalizeAllWellFormed(entries: seq<Entry>, name: string, category: string, nowIso: string)
    ensures forall r :: r in NormalizeAll(entries, name, category, nowIso) ==>
              WellFormed(r) && r.source == name && r.category == category
  {
    if entries != [] {
      NormalizeAllWellFormed(entries[..|entries| - 1], name, category, nowIso);
    }
  }

  /** Every gathered record is well formed. */
  lemma {:induction false} GatheredWellFormed(sources: seq<Source>, fetch: string -> Option<seq<Entry>>, nowIso: string)
    ensures forall r :: r in Gathered(sources, fetch, nowIso) ==> WellFormed(r)
  {
    if sources != [] {
      var init := sources[..|sources| - 1];
      GatheredWellFormed(init, fetch, nowIso);
      var rest := Gathered(init, fetch, nowIso);
      var s := sources[|sources| - 1];
      var url := SafeText(s.url);
      if url != "" && fetch(url).Some? {
        var batch := NormalizeAll(fetch(url).value, SourceName(s), SafeText(s.category), nowIso);
        NormalizeAllWellFormed(fetch(url).value, SourceName(s), SafeText(s.category), nowIso);
        assert Gathered(sources, fetch, nowIso) == rest + batch;
      } else {
        assert Gathered(sources, fetch, nowIso) == rest;
      }
    }
  }

  /** The inner loop of collect_all over one feed's entries. */
  method NormalizeFeed(entries: seq<Entry>, name: string, category: string, nowIso: string) returns (out: seq<Record>)
    ensures out == NormalizeAll(entries, name, category, nowIso)
  {
    out := [];
    for j := 0 to |entries|
      invariant out == NormalizeAll(entries[..j], name, category, nowIso)
    {
      assert entries[..j + 1][..j] == entries[..j];
      var it := NormalizeEntry(entries[j], name, category, nowIso);
      if it.Some? {
        out := out + [it.value];
      }
    }
    assert entries[..|entries|] == entries;
  }

  /** collect_all: every configured source's normalised entries, deduped by
      link keeping the freshest. */
  method CollectAll(sources: seq<Source>, fetch: string -> Option<seq<Entry>>, nowIso: string) returns (items: seq<Record>)
    ensures items == Freshest(Gathered(sources, fetch, nowIso))
  {
    var out: seq<Record> := [];
    for i := 0 to |sources|
      invariant out == Gathered(sources[..i], fetch, nowIso)
    {
      assert sources[..i + 1][..i] == sources[..i];
      var s := sources[i];
      var name := SourceName(s);
      var url := SafeText(s.url);
      var category := SafeText(s.category);
      if url == "" {
        continue;
      }
      var feed := fetch(url);
      if feed.None? {
        continue;
      }
      var batch := NormalizeFeed(feed.value, name, category, nowIso);
      out := out + batch;
    }
    assert sources[..|sources|] == sources;
    items := DedupeNewest(out);
  }
}
