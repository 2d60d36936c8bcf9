# news-alert-search: a verified model of the data pipeline and the collector

This Dafny project models the two data-handling programs of the news-alert-search
repository and proves what they promise.

**The archive pipeline, `scripts/collect.py`.** It reads configured RSS sources and
normalises each entry into a record: title, link, pubDate, source, category. It
dedupes the batch by link, keeping the record with the newest pubDate, and files the
records into month files `archive/<yyyy>/<yyyy-mm>.ndjson.gz`. Within each month,
links already stored and links of the latest file are skipped. It prunes months older
than five years and writes `latest.ndjson`: the last three months, with one record per
link, newest first.

In the model:
- The archive directory is a map from month key to the records of that month's file.
- A file is a sequence of lines.
- The current month is a parameter.
- Parsing a JSON line and mapping a pubDate to its Japan-time month are function-typed
  parameters.

**The SQLite collector, `collector.py`.** It fetches two fixed feeds. It keeps at most
80 entries per feed, and only those with a title and a link. It stores each entry as a
row with `INSERT OR IGNORE` under a 24-hex-digit id derived from source and link.
Search is an AND of `(title LIKE ? OR summary LIKE ?)` clauses, one per cleaned
keyword, ordered by `published` descending with `LIMIT 100`.

In the model:
- The table is the field `rows: map<string, Row>` of the class `ItemStore`. Its
  methods update it in place, as the SQL statements do.
- The hash, the time conversion and the clock come in as an `Env` value.
- Feed parsing is a function parameter.

Modules, one per file:

| file | module | contents |
|---|---|---|
| wrappers.dfy | Wrappers | `Option`; `FilterMap` (the present results of a partial map) |
| text.dfy | Text | Python's `str.strip` (whitespace as `str.isspace` defines it); `in` for strings; `endswith`; `replace(p, "")`; `split`; `join`; `count` |
| order.dfy | Order | Python's string `<` (code-point lexicographic); the stable descending sort of `list.sort(reverse=True)`; `sorted(set(...))` |
| months.dfy | Months | `YYYY-MM` keys; `months_back_list`; the prune cutoff |
| records.dfy | Records | `safe_text`; `normalize_entry`; the freshest-wins dedupe; `collect_all` |
| ndjson.dfy | Ndjson | `read_ndjson_gz`; `read_latest_links` |
| archive.dfy | Archive | `archive_path_for_month`; `list_months_in_archive`; `upsert_archive`; `prune_old_archives` |
| latest.dfy | Latest | `generate_latest` |
| collector.dfy | Collector | `make_id`; `to_iso` selection; the entry filter; `upsert_item`; `fetch`; `search` |

Two facts about the code shape the model:
- The search in `collector.py` is AND-only over `title` and `summary`; every term must
  occur in one of the two columns.
- `prune_old_archives` deletes a month only when its first day is strictly before the
  cutoff month's first day, so the cutoff month itself is kept.

## Model

| member | source | states |
|---|---|---|
| Text.Strip | scripts/collect.py:47-50 | the result has no leading or trailing whitespace, is no longer than the input, and is empty exactly when the input is all whitespace |
| Text.StripSplits | scripts/collect.py:50 | the input is some whitespace, then its stripped form, then some whitespace: strip removes only surrounding whitespace |
| Text.StripIdempotent | scripts/collect.py:50 | stripping a stripped string changes nothing |
| Text.RemoveAllSuffix | scripts/collect.py:267 | deleting ".ndjson.gz" from `<stem>.ndjson.gz` gives the stem back when the stem has no '.' |
| Text.Split | scripts/collect.py:95 | `s.split(c)` has one piece more than `s` has separators, and no piece contains the separator |
| Text.JoinSplit | scripts/collect.py:95 | joining the pieces of a split with the separator gives the string back |
| Order.SortDesc | scripts/collect.py:251 | the sort is a permutation of its input |
| Order.SortDescSorted | scripts/collect.py:251 | the sorted sequence is non-increasing in the key |
| Order.SortDescDistinct | scripts/collect.py:357 | sorting keeps a key-distinct sequence key-distinct |
| Order.SortedSet | scripts/collect.py:270 | `sorted(set(xs))` is strictly ascending and holds exactly the elements of `xs` |
| Order.AscendingUnique | scripts/collect.py:270 | two strictly ascending sequences with the same elements are equal, so `sorted(set(...))` has only one possible result |
| Months.MonthKey | scripts/collect.py:88-91 | a month key has length 7 with '-' at index 4, which is the shape the file filter accepts, and contains no '.' |
| Months.MonthKeyRoundTrip | scripts/collect.py:286-287 | parsing a formatted month key back gives the month |
| Months.ParseMonthKey | scripts/collect.py:286-287 | a stem parses when it is seven characters, four ASCII digits, `-`, two ASCII digits, with a year of at least 1 and a month from 1 to 12 (the month `datetime` accepts); a parsed key has a year from 1 to 9999 |
| Months.ParseMonthKeyCanonical | scripts/collect.py:286-287 | every key that parses is the formatted key of the month it parses to |
| Months.MonthKeyOrder | scripts/collect.py:88-91 | keys compare as strings exactly as their months compare in time |
| Months.PruneWindow | scripts/collect.py:280-288 | a month is deleted exactly when its index plus 60 is below the current month's index; the cutoff month is kept |
| Months.IsPruned | scripts/collect.py:280-288 | a month is pruned when its first day is before the first day of the month KEEP_YEARS years before now: an earlier year than now.year - 5, or that year and an earlier month |
| Months.MonthsBackList | scripts/collect.py:320-330 | n keys, strictly ascending, which are exactly the keys of the current month and the n - 1 months before it |
| Months.WindowMembers | scripts/collect.py:327-329 | the keys the loop produces are exactly the keys inside the n-month window |
| Records.SafeText | scripts/collect.py:47-50 | None gives ""; the result is stripped, and empty exactly when the value is missing or blank |
| Records.SafeTextIdempotent | scripts/collect.py:47-50 | applying safe_text to its own result changes nothing |
| Records.SourceName | scripts/collect.py:182 | a source is reported under its name, else its id, else "source", passed through safe_text, so the name is stripped |
| Records.NormalizeEntry | scripts/collect.py:156-175 | None exactly when the stripped title or link is empty; otherwise the record has the stripped title and link, the entry's date or now, the source name and the category |
| Records.NormalizeFixpoint | scripts/collect.py:156-175 | normalising a normalised record gives it back unchanged |
| Records.Best | scripts/collect.py:202-210 | the keys of `best` are the links of the batch, and each value is a record of the batch with that link |
| Records.Linked | scripts/collect.py:350-352 | the records with a non-empty link, in order: exactly the input's members whose link is not "" |
| Records.BestMaximal | scripts/collect.py:208-210 | no record of a link has a greater pubDate than the record kept for it |
| Records.BestFirst | scripts/collect.py:205-210 | the kept record is one whose earlier same-link records all have a strictly smaller pubDate: on a tie the first seen stays |
| Records.FreshestSpec | scripts/collect.py:211 | `list(best.values())` holds each link of the batch exactly once, and each record in it is the one kept for its link |
| Records.Freshest | scripts/collect.py:211 | `list(best.values())`: for each link in first-appearance order, the record the dict holds for it |
| Records.DedupeNewest | scripts/collect.py:201-211 | the dedupe loop computes exactly the freshest record per link, in first-seen link order |
| Records.NormalizeFeed | scripts/collect.py:195-199 | the inner loop keeps the normalised entries that survive, in order |
| Records.CollectAll | scripts/collect.py:178-211 | collect_all gives the freshest-per-link dedupe of every source's normalised entries; sources with no url or a failed fetch give nothing |
| Records.GatheredWellFormed | scripts/collect.py:156-199 | every collected record has a non-empty stripped title and link |
| Ndjson.ParseLinesSkipsBad | scripts/collect.py:106-113 | a blank or unparseable line is skipped and reading goes on with the next line |
| Ndjson.LineRecords | scripts/collect.py:106-114 | one line gives at most one record: none when it is blank after stripping or does not parse, otherwise the parsed record |
| Ndjson.ParseLines | scripts/collect.py:105-114 | the records of a file's lines, in line order, at most one per line |
| Ndjson.ParseLinesAllGood | scripts/collect.py:106-111 | when every line is non-blank and parses, the result holds every line's record, in order |
| Ndjson.ReadLine | scripts/collect.py:106-113 | the loop body gives the parsed record of the stripped line, or nothing when the line is blank or does not parse |
| Ndjson.ReadNdjson | scripts/collect.py:101-115 | a missing file gives no records; otherwise the records of the non-blank lines that parse, in order |
| Ndjson.LineLinks | scripts/collect.py:132-140 | the loop body gives the non-empty link of the line's record, or nothing |
| Ndjson.ReadLatestLinks | scripts/collect.py:127-143 | a missing file gives the empty set; otherwise the non-empty links of the parsed lines; never "" |
| Archive.ArchivePath | scripts/collect.py:94-98 | a path exists exactly when the key has one '-'; the file name ends in ".ndjson.gz" |
| Archive.MonthKeyPath | scripts/collect.py:94-98 | a month's file is `<yyyy>/<yyyy-mm>.ndjson.gz` |
| Archive.FileStemsMembers | scripts/collect.py:265-269 | the stems kept from a directory are exactly the month-shaped stems of its ".ndjson.gz" files |
| Archive.StemsListed | scripts/collect.py:262-269 | the collected stems are exactly the stems listed in some year directory |
| Archive.StemOf | scripts/collect.py:265-269 | a file gives a month stem when its directory is a four-digit year directory and the file ends in `.ndjson.gz` and its name without that suffix is seven characters with `-` at index 4 |
| Archive.ListDirectory | scripts/collect.py:265-269 | the inner loop collects the stems of one year directory in order |
| Archive.ListMonthsInArchive | scripts/collect.py:258-271 | the result is strictly ascending (sorted, no duplicates), holds exactly the listed stems, and each is month-shaped |
| Archive.WrittenFileListed | scripts/collect.py:262-269 | a file written where archive_path_for_month puts it is listed under its month key |
| Archive.MonthBatch | scripts/collect.py:223-227 | `by_month[mk]` holds exactly the items whose month key is mk |
| Archive.MonthOrder | scripts/collect.py:223-227 | the keys of `by_month` are exactly the months of some item |
| Archive.MonthOrderDistinct | scripts/collect.py:227 | no month appears twice among the keys of `by_month` |
| Archive.GroupByMonth | scripts/collect.py:222-227 | the grouping loop builds `by_month` with its keys in first-seen order and each key's items in order |
| Archive.Admitted | scripts/collect.py:239-244 | every admitted record comes from the month's items |
| Archive.AdmittedSpec | scripts/collect.py:235-244 | the new items carry no link of the month file or of the latest set and no link twice, and every other link of the month's items is admitted |
| Archive.AdmittedAll | scripts/collect.py:239-244 | items with distinct links, none of them already seen, are all admitted |
| Archive.SelectNew | scripts/collect.py:237-244 | the loop that grows `seen` computes exactly the admitted records |
| Archive.UpsertMonth | scripts/collect.py:232-253 | one month: the new items are appended and the file re-sorted, or the archive is left as it is when nothing is new; the gain is the number of new items |
| Archive.UpsertArchive | scripts/collect.py:214-255 | every month of the archive ends up as the upsert defines it, and the count returned is the total of new items over the months |
| Archive.UpsertArchiveSpec | scripts/collect.py:235-253 | a rewritten month's records are a permutation of its parsed existing records plus the new ones, so no parsed record is lost, and is non-increasing in pubDate; a month without new items is untouched; new items belong to the month and repeat no stored, latest or new link |
| Archive.PruneScanSpec | scripts/collect.py:284-293 | the scan finishes exactly when every listed key parses; every deleted month is listed and before the cutoff; and when the scan finishes, all listed months before the cutoff are deleted |
| Archive.PruneScan | scripts/collect.py:284-293 | the keys the loop deletes, up to the first key whose `int()` conversion or `datetime` construction raises, and whether the loop got past every key |
| Archive.PruneOldArchives | scripts/collect.py:274-293 | the remaining archive is the old one minus the months the scan deletes; the scan stops at the first key that does not parse |
| Latest.Keep | scripts/collect.py:340 | a month is kept exactly when it is listed and wanted |
| Latest.TargetMonths | scripts/collect.py:338-340 | the target months are exactly the listed months inside the latest window |
| Latest.KeepWindow | scripts/collect.py:338-340 | filtering by the set from months_back_list is filtering by the window |
| Latest.GatherMonths | scripts/collect.py:342-345 | the gathering loop concatenates the month files in target order |
| Latest.DedupeLinked | scripts/collect.py:348-354 | the loop skips records without a link and keeps the freshest record per link, in first-seen link order |
| Latest.GenerateLatest | scripts/collect.py:333-357 | latest.ndjson is the newest-first sort of the freshest linked record per link, over the window's months |
| Latest.LatestOf | scripts/collect.py:342-357 | the contents of latest.ndjson for the target months: their records gathered, the linkless skipped, the freshest per link kept, sorted newest first |
| Latest.SortedFreshest | scripts/collect.py:348-357 | the sorted dedupe is non-increasing in pubDate, has one record per link and every link of the pool, and no older record than another of its link |
| Latest.LatestSpec | scripts/collect.py:338-357 | the output is newest first with one record per link; each record has a link and comes from a listed month inside the window; none has an older pubDate than another record of its link |
| Collector.Take | collector.py:103 | a slice `s[:n]` is a prefix of `s`; it is exactly the first n elements when `s` is longer than n, and the whole sequence otherwise |
| Collector.MakeId | collector.py:45-47 | the id is the first 24 characters of the hash of the source and the url joined by a bar, all 24 when the hash is that long |
| Collector.PublishedIso | collector.py:111 | with no usable time the published value is now; otherwise it is the converted published time, or the converted updated time when there is no published time |
| Collector.EntryRow | collector.py:105-122 | None exactly when the stripped title or link is empty; otherwise the row has the source, the stripped title and link, the id of (source, link), the published time of the first non-empty of published_parsed and updated_parsed, the summary or description or "" stripped, and fetched_at now |
| Collector.FeedRowsSpec | collector.py:103-108 | at most 80 rows per feed; a row is offered exactly when it comes from one of the first 80 entries that has a title and a link |
| Collector.FeedRows | collector.py:103-110 | the rows one feed offers the table: the valid rows of its first MAX_PER_FEED entries, in feed order |
| Collector.Candidates | collector.py:100-110 | the rows `fetch` offers the table, feed after feed over the configured feeds |
| Collector.InsertAll | collector.py:70-88 | after the inserts the stored ids are the old ones plus the candidates' |
| Collector.InsertAllKeeps | collector.py:74 | a stored row is never replaced, and each new id holds a candidate row with that id |
| Collector.InsertAllFirstWins | collector.py:74 | for a new id, the first candidate row with that id is the one stored |
| Collector.InsertAllCount | collector.py:124-125 | the table grows by exactly the number of candidate ids not already stored |
| Collector.RefetchInsertsNothing | collector.py:100-125 | fetching the same feeds a second time, with another clock and time conversion but the same hash, leaves the table as the first fetch left it |
| Collector.CandidateIdsSameHash | collector.py:100-110 | the ids of the rows a fetch builds depend on the feeds and the hash only, not on the clock or the time conversion |
| Collector.CleanTerms | collector.py:137 | the terms are non-empty and stripped, and no more than the keywords |
| Collector.CleanTermsAppend | collector.py:137 | cleaning distributes over concatenation, so the terms keep the keywords' order |
| Collector.CleanTermsEmpty | collector.py:137-140 | no term is left exactly when every keyword is blank |
| Collector.ClausePlaceholders | collector.py:142 | one clause has two placeholders and the separator none |
| Collector.WhereClause | collector.py:142 | the where clause for n terms: n copies of the two-placeholder clause joined by ` AND ` |
| Collector.WherePlaceholders | collector.py:142 | the where clause for n terms has 2n placeholders and the length of n clauses with n - 1 separators |
| Collector.BuildParams | collector.py:143-146 | 2n parameters, with `%t%` twice for each term in term order |
| Collector.WhereSemantics | collector.py:142-151 | with those parameters the where clause holds on a row exactly when every term occurs in its title or its summary |
| Collector.EvalWhere | collector.py:142-151 | SQLite's evaluation of the where clause under the parameters: every pair of parameters has its first matched in title or its second in summary |
| Collector.Scan | collector.py:150-151 | a table scan returns each accepted row once, every accepted row of the table, and nothing else |
| Collector.SelectRows | collector.py:148-151 | the selected rows are exactly the table's matching rows, each once |
| Collector.NewestFirst | collector.py:152-153 | ORDER BY published DESC LIMIT n returns min(n, matches) distinct rows, non-increasing, and no row left out is newer than one returned |
| Collector.ItemStore.UpsertItem | collector.py:70-88 | an id already stored leaves the table unchanged and returns 0; a new id adds exactly that row and returns 1 |
| Collector.ItemStore.OfferEntry | collector.py:105-125 | one entry: its row, if it has one, is inserted or ignored, and the count is the growth of the table |
| Collector.ItemStore.FetchFeed | collector.py:103-125 | one feed: its first 80 entries' rows are inserted in order, and the count is the growth of the table |
| Collector.ItemStore.FetchFeeds | collector.py:100-125 | every feed in turn is inserted, and added_total is the growth of the table |
| Collector.ItemStore.Fetch | collector.py:91-129 | fetch inserts every candidate row of the two configured feeds in order, and added_total is the number of rows newly stored |
| Collector.ItemStore.Search | collector.py:132-157 | no query when no keyword is left; otherwise distinct stored rows matching every term, newest first, min(100, matches) of them, with no matching row left out that is newer than one returned |

## Left out

- Network fetching and feed parsing (`requests`, `feedparser`): a feed's entries come in through the function parameter `parse`/`fetch`.
- gzip and file I/O, the atomic temp-file replace, directory creation (`mkdir` inside `archive_path_for_month`) and the removal of empty year directories: files are sequences of lines and the archive is a map from month key to records.
- SQLite itself (connections, `init_db`, commit): the table is a map from id to row.
- `LIKE` wildcards and SQLite's ASCII case folding: a term is matched by literal containment, so a term holding `%` or `_`, or differing only in ASCII case, is not modelled.
- SHA-256 in `make_id`, and date parsing and time-zone conversion (`parse_pubdate`, `isoformat_z`, `to_iso`, `month_key_from_dt`'s conversion to Japan time): these are parameters (`sha256Hex`, `toIso`, `jstMonth`, the entry's already rendered `published`).
- The clock: each of `now_iso()` and `datetime.now()` is one `nowIso` value per call, whereas Python reads the clock again for every entry.
- JSON decoding: `parse` gives a line's record or None; a missing field reads as "". Every parsed line is taken to be a JSON object whose fields are strings. Python raises otherwise: a line such as `5` or `[]` raises `AttributeError` at `x.get` (scripts/collect.py:235, 350), and a null or non-string `pubDate` can raise `TypeError` when it is compared with a value of another type in the sorts or the `>` comparison (scripts/collect.py:251, 353, 357).
- Records.SourceName: a source's `name`, `id` and other fields are strings or absent; a `name` present as JSON null gives "" in Python (`safe_text(None)`, scripts/collect.py:182), whereas the model has no present-but-null value and falls back to `id`.
- Collector.ItemStore.Search: returns the whole rows, not only the four projected columns (published, source, title, url), and does not print them.
- Collector.ItemStore.Search: rows with equal `published` come in some order that is left unstated, as SQL leaves it.
- Collector.WhereClause: the where clause is built and its placeholder count proved, but it is evaluated through `EvalWhere` over the parameters rather than by parsing the SQL text.
- Order.SortDesc: it is a stable sort by construction, like Python's `list.sort`, but no lemma states stability.
- Months.ParseMonthKey: Python's `int()` accepts signs, spaces, underscores and non-ASCII Unicode decimal digits (a stem such as `２０２４-０１`); such keys are treated as not parsing.
- Archive.UpsertArchive: the archive maps each month to its parsed records, so it does not show that rewriting a month file that gains items drops the file's blank and unparseable lines, which `read_ndjson_gz` skipped (scripts/collect.py:106-114, 233, 252).
- The prune cutoff when the current year is 5 or less, where Python's `datetime` raises: the model compares with year `now.year - 5` all the same. A 29 February clamped by `relativedelta` keeps its month, so it changes nothing.
- `load_sources` (reading the config file and its `enabled` filter): the model takes the list of sources as given.
- `generate_index`, `ensure_dirs`, `main`, argv handling, `print` and logging: these are output and orchestration with no logic to verify.
- `export_json.py`: only reads the database and dumps JSON.
- The browser-side JavaScript (query parsing, matching, facets, partition loading) is not part of this model.
- `errors="replace"` decoding of invalid UTF-8: lines are already strings.
