/** collector.py: feed entries are stored in an SQLite table `items` keyed by
    id with INSERT OR IGNORE, and searched with an AND of
    (title LIKE ? OR summary LIKE ?) clauses. The table is a map from id to
    row; feed parsing, SHA-256, the clock and time-zone conversion are
    parameters. */
module Collector {
  import opened Wrappers
  import opened Text
  import opened Order

  /** An entry as feedparser gives it; absent keys are None. A parsed time
      is the fields of its struct_time. */
  datatype FeedEntry = FeedEntry(
    title: Option<string>,
    link: Option<string>,
    summary: Option<string>,
    description: Option<string>,
    publishedParsed: Option<seq<int>>,
    updatedParsed: Option<seq<int>>)

  /** A row of the `items` table. */
  datatype Row = Row(id: string, source: string, title: string, url: string,
                     published: string, summary: string, fetchedAt: string)

  /** What the collector takes from outside: sha256(...).hexdigest(), the
      UTC-to-JST ISO conversion of a struct_time, and now_iso(). */
  datatype Env = Env(sha256Hex: string -> string, toIso: seq<int> -> string, nowIso: string)

  const FEEDS: seq<(string, string)> := [
    ("JETRO", "https://www.jetro.go.jp/rss/biznews.xml"),
    ("中小企業庁", "https://www.chusho.meti.go.jp/rss/index.xml")
  ]

  const MAX_PER_FEED: nat := 80
  const ID_LENGTH: nat := 24
  const SEARCH_LIMIT: nat := 100

  function Id(r: Row): string { r.id }
  function Published(r: Row): string { r.published }

  /** Python's `a or b` for an optional string. */
  function Or(a: Option<string>, b: string): string {
    if a.Some? && a.value != "" then a.value else b
  }

  /** s[:n] */
  function Take<T>(s: seq<T>, n: nat): (r: seq<T>)
    ensures |r| <= n && r <= s
    ensures |s| <= n ==> r == s
    ensures |s| > n ==> r == s[..n]
  {
    if |s| <= n then s else s[..n]
  }

  /** make_id: the first 24 hex digits of the hash of "source|url". */
  function MakeId(source: string, url: string, env: Env): (id: string)
    ensures |id| <= ID_LENGTH && id <= env.sha256Hex(source + "|" + url)
    ensures |env.sha256Hex(source + "|" + url)| >= ID_LENGTH ==> |id| == ID_LENGTH
  {
    Take(env.sha256Hex(source + "|" + url), ID_LENGTH)
  }

  /** to_iso(published_parsed or updated_parsed): an empty or missing time
      stands for now. */
  function PublishedIso(e: FeedEntry, env: Env): (p: string)
    ensures ((e.publishedParsed.None? || e.publishedParsed.value == []) &&
             (e.updatedParsed.None? || e.updatedParsed.value == [])) ==> p == env.nowIso
    ensures e.publishedParsed.Some? && e.publishedParsed.value != [] ==> p == env.toIso(e.publishedParsed.value)
    ensures ((e.publishedParsed.None? || e.publishedParsed.value == []) &&
             e.updatedParsed.Some? && e.updatedParsed.value != []) ==> p == env.toIso(e.updatedParsed.value)
  {
    var st := if e.publishedParsed.Some? && e.publishedParsed.value != [] then e.publishedParsed else e.updatedParsed;
    if st.None? || st.value == [] then env.nowIso else env.toIso(st.value)
  }

  /** The row fetch builds from one entry, or None when the stripped title or
      link is empty. */
  function EntryRow(source: string, e: FeedEntry, env: Env): (r: Option<Row>)
    ensures r.None? <==> IsBlank(Or(e.title, "")) || IsBlank(Or(e.link, ""))
    ensures r.Some? ==> && r.value.title != "" && IsStripped(r.value.title)
                        && r.value.url != "" && IsStripped(r.value.url)
                        && r.value.title == Strip(Or(e.title, ""))
                        && r.value.url == Strip(Or(e.link, ""))
                        && r.value.published == PublishedIso(e, env)
                        && r.value.source == source
                        && r.value.id == MakeId(source, r.value.url, env)
                        && r.value.summary == Strip(Or(e.summary, Or(e.description, "")))
                        && r.value.fetchedAt == env.nowIso
  {
    var title := Strip(Or(e.title, ""));
    var link := Strip(Or(e.link, ""));
    if link == "" || title == "" then None
    else Some(Row(MakeId(source, link, env), source, title, link, PublishedIso(e, env),
                  Strip(Or(e.summary, Or(e.description, ""))), env.nowIso))
  }

  /** EntryRow for one source. */
  function EntryRowOf(source: string, env: Env): FeedEntry -> Option<Row> {
    e => EntryRow(source, e, env)
  }

  /** The rows fetch offers the table for one feed: those of its first
      MAX_PER_FEED entries that have a title and a link, in order. */
  function FeedRows(source: string, entries: seq<FeedEntry>, env: Env): seq<Row> {
    FilterMap(Take(entries, MAX_PER_FEED), EntryRowOf(source, env))
  }

  /** Only the first MAX_PER_FEED entries of a feed are considered, and each
      of them that has a title and a link gives its row. */
  lemma FeedRowsSpec(source: string, entries: seq<FeedEntry>, env: Env)
    ensures |FeedRows(source, entries, env)| <= MAX_PER_FEED
    ensures forall x :: x in FeedRows(source, entries, env) <==>
              exists i :: 0 <= i < |entries| && i < MAX_PER_FEED && EntryRow(source, entries[i], env) == Some(x)
  {
    var es := Take(entries, MAX_PER_FEED);
    FilterMapMembers(es, EntryRowOf(source, env));
    assert forall i :: 0 <= i < |es| ==> es[i] == entries[i];
  }

  /** The rows of all feeds, feed after feed; `parse` gives a feed URL's
      entries. */
  function Candidates(feeds: seq<(string, string)>, parse: string -> seq<FeedEntry>, env: Env): seq<Row> {
    if feeds == [] then []
    else
      var f := feeds[|feeds| - 1];
      Candidates(feeds[..|feeds| - 1], parse, env) + FeedRows(f.0, parse(f.1), env)
  }

  /** The ids of some rows. */
  function Ids(rs: seq<Row>): set<string> {
    if rs == [] then {} else Ids(rs[..|rs| - 1]) + {rs[|rs| - 1].id}
  }

  lemma {:induction false} IdsMembers(rs: seq<Row>)
    ensures forall k :: k in Ids(rs) <==> exists j :: 0 <= j < |rs| && rs[j].id == k
  {
    if rs != [] {
      var init := rs[..|rs| - 1];
      IdsMembers(init);
      assert forall j :: 0 <= j < |init| ==> rs[j] == init[j];
    }
  }

  /** INSERT OR IGNORE of the rows one after the other. */
  function InsertAll(t: map<string, Row>, rs: seq<Row>): (m: map<string, Row>)
    ensures m.Keys == t.Keys + Ids(rs)
  {
    if rs == [] then t
    else
      var m := InsertAll(t, rs[..|rs| - 1]);
      var r := rs[|rs| - 1];
      if r.id in m then m else m[r.id := r]
  }

  /** INSERT OR IGNORE never replaces a stored row, and every row it adds is
      a candidate stored under its own id. */
  lemma {:induction false} InsertAllKeeps(t: map<string, Row>, rs: seq<Row>)
    ensures forall k :: k in t ==> InsertAll(t, rs)[k] == t[k]
    ensures forall k :: k in InsertAll(t, rs) && k !in t ==>
              exists j :: 0 <= j < |rs| && rs[j] == InsertAll(t, rs)[k] && rs[j].id == k
  {
    if rs != [] {
      var init := rs[..|rs| - 1];
      InsertAllKeeps(t, init);
      assert forall j :: 0 <= j < |init| ==> rs[j] == init[j];
      var m := InsertAll(t, rs);
      forall k | k in m && k !in t ensures exists j :: 0 <= j < |rs| && rs[j] == m[k] && rs[j].id == k {
        if k !in InsertAll(t, init) {
          assert rs[|rs| - 1] == m[k];
        }
      }
    }
  }

  lemma InsertAllUnfold(t: map<string, Row>, rs: seq<Row>)
    requires rs != []
    ensures var m := InsertAll(t, rs[..|rs| - 1]);
            var r := rs[|rs| - 1];
            InsertAll(t, rs) == if r.id in m then m else m[r.id := r]
  {
  }

  lemma InsertOne(t: map<string, Row>, r: Row)
    ensures InsertAll(t, [r]) == if r.id in t then t else t[r.id := r]
  {
    assert [r][..0] == [];
  }

  lemma {:induction false} InsertAllAppend(t: map<string, Row>, a: seq<Row>, b: seq<Row>)
    ensures InsertAll(t, a + b) == InsertAll(InsertAll(t, a), b)
    decreases |b|
  {
    if b == [] {
      assert a + b == a;
    } else {
      var b' := b[..|b| - 1];
      assert (a + b)[..|a + b| - 1] == a + b';
      InsertAllAppend(t, a, b');
    }
  }

  /** Rows whose ids are all stored change nothing. */
  lemma {:induction false} InsertAllPresent(t: map<string, Row>, rs: seq<Row>)
    requires Ids(rs) <= t.Keys
    ensures InsertAll(t, rs) == t
  {
    if rs != [] {
      InsertAllPresent(t, rs[..|rs| - 1]);
    }
  }

  lemma {:induction false} IdsAppend(a: seq<Row>, b: seq<Row>)
    ensures Ids(a + b) == Ids(a) + Ids(b)
    decreases |b|
  {
    if b == [] {
      assert a + b == a;
    } else {
      var b' := b[..|b| - 1];
      assert (a + b)[..|a + b| - 1] == a + b';
      IdsAppend(a, b');
    }
  }

  /** Whether an entry gives a row, and the row's id, depend on the hash
      only, not on the clock or the time conversion. */
  lemma {:induction false} FeedIdsSameHash(source: string, es: seq<FeedEntry>, env: Env, env': Env)
    requires env.sha256Hex == env'.sha256Hex
    ensures Ids(FilterMap(es, EntryRowOf(source, env))) == Ids(FilterMap(es, EntryRowOf(source, env')))
  {
    if es != [] {
      var init, e := es[..|es| - 1], es[|es| - 1];
      FeedIdsSameHash(source, init, env, env');
      var f, f' := EntryRowOf(source, env), EntryRowOf(source, env');
      assert f(e) == EntryRow(source, e, env) && f'(e) == EntryRow(source, e, env');
      assert Ids(Present(f(e))) == Ids(Present(f'(e))) by {
        if f(e).Some? {
          assert [f(e).value][..0] == [] && [f'(e).value][..0] == [];
        }
      }
      IdsAppend(FilterMap(init, f), Present(f(e)));
      IdsAppend(FilterMap(init, f'), Present(f'(e)));
    }
  }

  lemma {:induction false} CandidateIdsSameHash(feeds: seq<(string, string)>, parse: string -> seq<FeedEntry>, env: Env, env': Env)
    requires env.sha256Hex == env'.sha256Hex
    ensures Ids(Candidates(feeds, parse, env)) == Ids(Candidates(feeds, parse, env'))
  {
    if feeds != [] {
      var init, fd := feeds[..|feeds| - 1], feeds[|feeds| - 1];
      CandidateIdsSameHash(init, parse, env, env');
      FeedIdsSameHash(fd.0, Take(parse(fd.1), MAX_PER_FEED), env, env');
      IdsAppend(Candidates(init, parse, env), FeedRows(fd.0, parse(fd.1), env));
      IdsAppend(Candidates(init, parse, env'), FeedRows(fd.0, parse(fd.1), env'));
    }
  }

  /** A second fetch of the same feeds, at another time, inserts nothing:
      the same (source, link) gives the same id, whatever fetched_at and
      published the new rows carry. */
  lemma RefetchInsertsNothing(t: map<string, Row>, feeds: seq<(string, string)>, parse: string -> seq<FeedEntry>, env: Env, env': Env)
    requires env.sha256Hex == env'.sha256Hex
    ensures var once := InsertAll(t, Candidates(feeds, parse, env));
            InsertAll(once, Candidates(feeds, parse, env')) == once
  {
    CandidateIdsSameHash(feeds, parse, env, env');
    InsertAllPresent(InsertAll(t, Candidates(feeds, parse, env)), Candidates(feeds, parse, env'));
  }

  lemma DiffAbsorb(a: set<string>, k: set<string>, x: string)
    requires x in a + k
    ensures (a + {x}) - k == a - k
  {
  }

  lemma DiffGrow(a: set<string>, k: set<string>, x: string)
    requires x !in a + k
    ensures (a + {x}) - k == (a - k) + {x} && |(a + {x}) - k| == |a - k| + 1
  {
    assert x !in a - k;
  }

  /** The table grows by exactly the number of new ids. */
  lemma {:induction false} InsertAllCount(t: map<string, Row>, rs: seq<Row>)
    ensures |InsertAll(t, rs)| == |t| + |Ids(rs) - t.Keys|
  {
    if rs != [] {
      var init := rs[..|rs| - 1];
      var r := rs[|rs| - 1];
      InsertAllCount(t, init);
      var m := InsertAll(t, init);
      if r.id in m {
        DiffAbsorb(Ids(init), t.Keys, r.id);
      } else {
        assert |m[r.id := r]| == |m| + 1;
        DiffGrow(Ids(init), t.Keys, r.id);
      }
    }
  }

  /** The first candidate row of a new id is the one stored. */
  lemma {:induction false} InsertAllFirstWins(t: map<string, Row>, rs: seq<Row>, i: nat)
    requires i < |rs| && rs[i].id !in t
    requires forall j :: 0 <= j < i ==> rs[j].id != rs[i].id
    ensures rs[i].id in InsertAll(t, rs) && InsertAll(t, rs)[rs[i].id] == rs[i]
  {
    var init := rs[..|rs| - 1];
    var k := rs[i].id;
    IdsMembers(init);
    if i < |init| {
      assert init[i] == rs[i];
      InsertAllFirstWins(t, init, i);
    } else {
      assert k !in Ids(init) by {
        forall j | 0 <= j < |init| ensures init[j].id != k {
          assert rs[j] == init[j];
        }
      }
    }
  }

  /** The table keeps each row under its own id. */
  ghost predicate Keyed(t: map<string, Row>) {
    forall k :: k in t ==> t[k].id == k
  }

  /** [k.strip() for k in keywords if k.strip()] */
  function CleanTerms(keywords: seq<string>): (terms: seq<string>)
    ensures |terms| <= |keywords|
    ensures forall t :: t in terms ==> t != "" && IsStripped(t)
  {
    if keywords == [] then []
    else
      var rest := CleanTerms(keywords[..|keywords| - 1]);
      var t := Strip(keywords[|keywords| - 1]);
      if t != "" then rest + [t] else rest
  }

  /** The terms keep the keywords' order. */
  lemma {:induction false} CleanTermsAppend(a: seq<string>, b: seq<string>)
    ensures CleanTerms(a + b) == CleanTerms(a) + CleanTerms(b)
    decreases |b|
  {
    if b == [] {
      assert a + b == a;
    } else {
      var b' := b[..|b| - 1];
      assert (a + b)[..|a + b| - 1] == a + b';
      CleanTermsAppend(a, b');
    }
  }

  /** No terms are left exactly when every keyword is blank. */
  lemma {:induction false} CleanTermsEmpty(keywords: seq<string>)
    ensures CleanTerms(keywords) == [] <==> forall i :: 0 <= i < |keywords| ==> IsBlank(keywords[i])
  {
    if keywords != [] {
      var init := keywords[..|keywords| - 1];
      CleanTermsEmpty(init);
      assert forall i :: 0 <= i < |init| ==> init[i] == keywords[i];
    }
  }

  /** "(title LIKE ? OR summary LIKE ?)", written around its two placeholders. */
  const CLAUSE: string := "(title LIKE " + "?" + " OR summary LIKE " + "?" + ")"
  const AND: string := " AND "

  /** " AND ".join([CLAUSE] * n) */
  function WhereClause(n: nat): string {
    Join(Repeat(CLAUSE, n), AND)
  }

  /** Two placeholders between three placeholder-free pieces. */
  lemma TwoPlaceholders(a: string, b: string, c: string)
    requires '?' !in a && '?' !in b && '?' !in c
    ensures CountChar(a + "?" + b + "?" + c, '?') == 2
  {
    CountCharAbsent(a, '?');
    CountCharAbsent(b, '?');
    CountCharAbsent(c, '?');
    assert CountChar("?", '?') == 1 by {
      assert "?"[..0] == [];
    }
    CountCharConcat(a, "?", '?');
    CountCharConcat(a + "?", b, '?');
    CountCharConcat(a + "?" + b, "?", '?');
    CountCharConcat(a + "?" + b + "?", c, '?');
  }

  lemma ClausePlaceholders()
    ensures CountChar(CLAUSE, '?') == 2
    ensures CountChar(AND, '?') == 0
  {
    TwoPlaceholders("(title LIKE ", " OR summary LIKE ", ")");
    CountCharAbsent(AND, '?');
  }

  /** The where clause has two placeholders per term, as many as the
      parameters. */
  lemma {:induction false} WherePlaceholders(n: nat)
    ensures CountChar(WhereClause(n), '?') == 2 * n
    ensures |WhereClause(n)| == if n == 0 then 0 else n * |CLAUSE| + (n - 1) * |AND|
  {
    ClausePlaceholders();
    if n > 1 {
      WherePlaceholders(n - 1);
      var parts := Repeat(CLAUSE, n);
      assert parts[..n - 1] == Repeat(CLAUSE, n - 1);
      assert WhereClause(n) == WhereClause(n - 1) + AND + CLAUSE;
      CountCharConcat(WhereClause(n - 1), AND, '?');
      CountCharConcat(WhereClause(n - 1) + AND, CLAUSE, '?');
    }
  }

  /** f"%{t}%" */
  function Pattern(t: string): string { "%" + t + "%" }

  /** The search parameters: each term's pattern twice, in term order. */
  method BuildParams(terms: seq<string>) returns (params: seq<string>)
    ensures |params| == 2 * |terms|
    ensures forall i :: 0 <= i < |terms| ==> params[2 * i] == Pattern(terms[i]) && params[2 * i + 1] == Pattern(terms[i])
  {
    params := [];
    for i := 0 to |terms|
      invariant |params| == 2 * i
      invariant forall j :: 0 <= j < i ==> params[2 * j] == Pattern(terms[j]) && params[2 * j + 1] == Pattern(terms[j])
    {
      var like := Pattern(terms[i]);
      params := params + [like, like];
    }
  }

  /** The parameters BuildParams gives for the terms. */
  ghost predicate ParamsFor(params: seq<string>, terms: seq<string>) {
    && |params| == 2 * |terms|
    && forall i :: 0 <= i < |terms| ==> params[2 * i] == Pattern(terms[i]) && params[2 * i + 1] == Pattern(terms[i])
  }

  /** s LIKE '%t%', with `t` taken literally. */
  predicate LikeMatch(pattern: string, s: string) {
    |pattern| >= 2 && pattern[0] == '%' && pattern[|pattern| - 1] == '%' && Contains(s, pattern[1..|pattern| - 1])
  }

  /** The where clause of n clauses evaluated on a row with its 2n
      parameters. */
  predicate EvalWhere(params: seq<string>, r: Row)
    decreases |params|
  {
    if |params| < 2 then true
    else EvalWhere(params[..|params| - 2], r) &&
         (LikeMatch(params[|params| - 2], r.title) || LikeMatch(params[|params| - 1], r.summary))
  }

  /** Every term occurs in the title or in the summary. */
  predicate Matches(terms: seq<string>, r: Row) {
    forall t :: t in terms ==> Contains(r.title, t) || Contains(r.summary, t)
  }

  /** The query with the built parameters selects exactly the rows in which
      every term occurs in the title or the summary. */
  lemma {:induction false} WhereSemantics(terms: seq<string>, params: seq<string>, r: Row)
    requires ParamsFor(params, terms)
    ensures EvalWhere(params, r) <==> Matches(terms, r)
  {
    if terms != [] {
      var n := |terms|;
      var init := terms[..n - 1];
      var t := terms[n - 1];
      var p := params[..|params| - 2];
      forall i | 0 <= i < |init| ensures p[2 * i] == Pattern(init[i]) && p[2 * i + 1] == Pattern(init[i]) {
        assert terms[i] == init[i];
      }
      WhereSemantics(init, p, r);
      assert params[2 * (n - 1)] == Pattern(t);
      assert Pattern(t)[1..|Pattern(t)| - 1] == t;
      assert terms == init + [t];
    }
  }

  /** The keys among `keys` of rows that `keep` accepts. */
  ghost function KeptIn(t: map<string, Row>, keys: set<string>, keep: Row -> bool): set<string> {
    set k | k in keys && k in t && keep(t[k])
  }

  lemma KeptStep(t: map<string, Row>, keys: set<string>, k: string, keep: Row -> bool)
    requires k in t && k !in keys
    ensures keep(t[k]) ==> KeptIn(t, keys + {k}, keep) == KeptIn(t, keys, keep) + {k}
    ensures !keep(t[k]) ==> KeptIn(t, keys + {k}, keep) == KeptIn(t, keys, keep)
    ensures |KeptIn(t, keys + {k}, keep)| == |KeptIn(t, keys, keep)| + if keep(t[k]) then 1 else 0
  {
    if keep(t[k]) {
      assert KeptIn(t, keys + {k}, keep) == KeptIn(t, keys, keep) + {k};
      assert k !in KeptIn(t, keys, keep);
    } else {
      assert KeptIn(t, keys + {k}, keep) == KeptIn(t, keys, keep);
    }
  }

  /** Moving one element from the part still to visit to the visited part. */
  lemma MoveOne<T>(all: set<T>, todo: set<T>, done: set<T>, k: T)
    requires done <= all && todo == all - done && k in todo
    ensures done + {k} <= all && todo - {k} == all - (done + {k}) && |todo - {k}| < |todo|
  {
  }

  /** The ids of the rows in which every term occurs. */
  ghost function MatchIds(t: map<string, Row>, terms: seq<string>): set<string> {
    set k | k in t && Matches(terms, t[k])
  }

  function Min(a: nat, b: nat): nat { if a <= b then a else b }

  /** A scan of the whole table: the rows `keep` accepts, each once. */
  method Scan(t: map<string, Row>, keep: Row -> bool) returns (found: seq<Row>)
    requires Keyed(t)
    ensures forall r :: r in found ==> r.id in t && t[r.id] == r && keep(r)
    ensures forall k :: k in t && keep(t[k]) ==> t[k] in found
    ensures DistinctBy(found, Id)
    ensures |found| == |KeptIn(t, t.Keys, keep)|
  {
    var todo := t.Keys;
    ghost var done: set<string> := {};
    found := [];
    while todo != {}
      invariant done <= t.Keys && todo == t.Keys - done
      invariant forall r :: r in found ==> r.id in done && t[r.id] == r && keep(r)
      invariant forall k :: k in done && keep(t[k]) ==> t[k] in found
      invariant DistinctBy(found, Id)
      invariant |found| == |KeptIn(t, done, keep)|
      decreases |todo|
    {
      var k :| k in todo;
      var r := t[k];
      KeptStep(t, done, k, keep);
      MoveOne(t.Keys, todo, done, k);
      if keep(r) {
        DistinctSnoc(found, r, Id);
        found := found + [r];
      }
      todo := todo - {k};
      done := done + {k};
    }
    assert done == t.Keys;
  }

  /** Evaluating the where clause on every row of the table: the rows in
      which every term occurs, each once. */
  method SelectRows(t: map<string, Row>, params: seq<string>, terms: seq<string>) returns (found: seq<Row>)
    requires Keyed(t)
    requires ParamsFor(params, terms)
    ensures forall r :: r in found ==> r.id in t && t[r.id] == r && Matches(terms, r)
    ensures forall k :: k in t && Matches(terms, t[k]) ==> t[k] in found
    ensures DistinctBy(found, Id)
    ensures |found| == |MatchIds(t, terms)|
  {
    var keep := r => EvalWhere(params, r);
    forall r ensures keep(r) <==> Matches(terms, r) {
      WhereSemantics(terms, params, r);
    }
    found := Scan(t, keep);
    assert KeptIn(t, t.Keys, keep) == MatchIds(t, terms);
  }

  /** One more entry of a feed offered to the table. */
  lemma FeedStep(t: map<string, Row>, es: seq<FeedEntry>, i: nat, source: string, env: Env)
    requires i < |es|
    ensures var f := EntryRowOf(source, env);
            InsertAll(t, FilterMap(es[..i + 1], f)) == InsertAll(InsertAll(t, FilterMap(es[..i], f)), Present(EntryRow(source, es[i], env)))
  {
    var f := EntryRowOf(source, env);
    assert es[..i + 1][..i] == es[..i];
    assert f(es[i]) == EntryRow(source, es[i], env);
    InsertAllAppend(t, FilterMap(es[..i], f), Present(f(es[i])));
  }

  /** One more feed fetched. */
  lemma FetchStep(t: map<string, Row>, feeds: seq<(string, string)>, f: nat, parse: string -> seq<FeedEntry>, env: Env)
    requires f < |feeds|
    ensures InsertAll(t, Candidates(feeds[..f + 1], parse, env)) ==
            InsertAll(InsertAll(t, Candidates(feeds[..f], parse, env)), FeedRows(feeds[f].0, parse(feeds[f].1), env))
  {
    assert feeds[..f + 1][..f] == feeds[..f];
    InsertAllAppend(t, Candidates(feeds[..f], parse, env), FeedRows(feeds[f].0, parse(feeds[f].1), env));
  }

  /** ORDER BY published DESC LIMIT n over distinct rows: the first n rows
      in descending order, and none left out newer than one kept. */
  lemma NewestFirst(found: seq<Row>, n: nat)
    requires DistinctBy(found, Id)
    ensures var sorted := SortDesc(found, Published);
            var h := sorted[..Min(n, |sorted|)];
            && (forall r :: r in h ==> r in found)
            && DistinctBy(h, Id)
            && SortedDesc(h, Published)
            && |h| == Min(n, |found|)
            && (forall x :: x in found && x !in h ==> forall r :: r in h ==> !Less(r.published, x.published))
  {
    var sorted := SortDesc(found, Published);
    SortDescSorted(found, Published);
    SortDescDistinct(found, Published, Id);
    var m := Min(n, |sorted|);
    var h := sorted[..m];
    SortedPrefix(sorted, m, Published, Id);
    assert |sorted| == |found| by {
      assert |multiset(sorted)| == |multiset(found)|;
    }
    SameElements(sorted, found);
  }

  /** The `items` table. */
  class ItemStore {
    var rows: map<string, Row>

    ghost predicate Valid()
      reads this
    {
      Keyed(rows)
    }

    constructor()
      ensures Valid() && rows == map[]
    {
      rows := map[];
    }

    /** upsert_item: INSERT OR IGNORE; the row count is 1 when the row was
        added, 0 when its id was present. */
    method UpsertItem(item: Row) returns (count: nat)
      requires Valid()
      modifies this
      ensures Valid()
      ensures item.id in old(rows) ==> rows == old(rows) && count == 0
      ensures item.id !in old(rows) ==> rows == old(rows)[item.id := item] && count == 1
    {
      if item.id in rows {
        count := 0;
      } else {
        rows := rows[item.id := item];
        count := 1;
      }
    }

    /** The body of fetch's inner loop: the entry's row is offered to the
        table unless its stripped title or link is empty. */
    method OfferEntry(source: string, e: FeedEntry, env: Env) returns (count: nat)
      requires Valid()
      modifies this
      ensures Valid()
      ensures rows == InsertAll(old(rows), Present(EntryRow(source, e, env)))
      ensures count == |rows| - |old(rows)|
    {
      var title := Strip(Or(e.title, ""));
      var link := Strip(Or(e.link, ""));
      if link == "" || title == "" {
        return 0;
      }
      var id := MakeId(source, link, env);
      var published := PublishedIso(e, env);
      var summary := Strip(Or(e.summary, Or(e.description, "")));
      var item := Row(id, source, title, link, published, summary, env.nowIso);
      InsertOne(rows, item);
      count := UpsertItem(item);
    }

    /** The inner loop of fetch over one feed's first MAX_PER_FEED entries. */
    method FetchFeed(source: string, entries: seq<FeedEntry>, env: Env) returns (added: nat)
      requires Valid()
      modifies this
      ensures Valid()
      ensures rows == InsertAll(old(rows), FeedRows(source, entries, env))
      ensures added == |rows| - |old(rows)|
    {
      var es := Take(entries, MAX_PER_FEED);
      ghost var f := EntryRowOf(source, env);
      added := 0;
      for i := 0 to |es|
        invariant Valid()
        invariant rows == InsertAll(old(rows), FilterMap(es[..i], f))
        invariant added == |rows| - |old(rows)|
      {
        FeedStep(old(rows), es, i, source, env);
        var count := OfferEntry(source, es[i], env);
        added := added + count;
      }
      assert es[..|es|] == es;
    }

    /** The outer loop of fetch: every feed of `feeds` in turn, the total of
        rows added. */
    method FetchFeeds(feeds: seq<(string, string)>, parse: string -> seq<FeedEntry>, env: Env) returns (addedTotal: nat)
      requires Valid()
      modifies this
      ensures Valid()
      ensures rows == InsertAll(old(rows), Candidates(feeds, parse, env))
      ensures addedTotal == |rows| - |old(rows)|
    {
      addedTotal := 0;
      for f := 0 to |feeds|
        invariant Valid()
        invariant rows == InsertAll(old(rows), Candidates(feeds[..f], parse, env))
        invariant addedTotal == |rows| - |old(rows)|
      {
        FetchStep(old(rows), feeds, f, parse, env);
        var (source, url) := feeds[f];
        var added := FetchFeed(source, parse(url), env);
        addedTotal := addedTotal + added;
      }
      assert feeds[..|feeds|] == feeds;
    }

    /** fetch: the configured feeds in turn, the total of rows added. */
    method Fetch(parse: string -> seq<FeedEntry>, env: Env) returns (addedTotal: nat)
      requires Valid()
      modifies this
      ensures Valid()
      ensures rows == InsertAll(old(rows), Candidates(FEEDS, parse, env))
      ensures addedTotal == |rows| - |old(rows)|
    {
      addedTotal := FetchFeeds(FEEDS, parse, env);
    }

    /** search: None when no keyword is left after cleaning; otherwise the
        matching rows, newest first, at most SEARCH_LIMIT of them and none
        left out that is newer than one returned. */
    method Search(keywords: seq<string>) returns (hits: Option<seq<Row>>)
      requires Valid()
      ensures hits.None? <==> CleanTerms(keywords) == []
      ensures hits.Some? ==>
                var terms := CleanTerms(keywords);
                var h := hits.value;
                && (forall r :: r in h ==> r.id in rows && rows[r.id] == r && Matches(terms, r))
                && DistinctBy(h, Id)
                && SortedDesc(h, Published)
                && |h| == Min(SEARCH_LIMIT, |MatchIds(rows, terms)|)
                && (forall k :: k in rows && Matches(terms, rows[k]) && rows[k] !in h ==>
                      forall r :: r in h ==> !Less(r.published, rows[k].published))
    {
      var terms := CleanTerms(keywords);
      if terms == [] {
        return None;
      }
      var where := WhereClause(|terms|);
      var params := BuildParams(terms);
      assert ParamsFor(params, terms);
      var found := SelectRows(rows, params, terms);
      var sorted := SortDesc(found, Published);
      var h := sorted[..Min(SEARCH_LIMIT, |sorted|)];
      NewestFirst(found, SEARCH_LIMIT);
      hits := Some(h);
    }
  }
}
