/** Reading newline-delimited JSON files (read_ndjson_gz and
    read_latest_links in scripts/collect.py). A file is its sequence of
    lines, or None when it does not exist; decoding one JSON line into a
    record is the parameter `parse`, None when the line is not valid JSON. */
module Ndjson {
  import opened Wrappers
  import opened Text
  import opened Records

  /** What one line contributes: nothing when it is blank after strip() or
      fails to parse, else its record. */
  function LineRecords(line: string, parse: string -> Option<Record>): (r: seq<Record>)
    ensures |r| <= 1
  {
    var t := Strip(line);
    if t == "" then []
    else match parse(t)
      case Some(x) => [x]
      case None => []
  }

  /** The records of the lines, in order. */
  function ParseLines(lines: seq<string>, parse: string -> Option<Record>): (r: seq<Record>)
    ensures |r| <= |lines|
  {
    if lines == [] then [] else ParseLines(lines[..|lines| - 1], parse) + LineRecords(lines[|lines| - 1], parse)
  }

  lemma {:induction false} ParseLinesAppend(a: seq<string>, b: seq<string>, parse: string -> Option<Record>)
    ensures ParseLines(a + b, parse) == ParseLines(a, parse) + ParseLines(b, parse)
    decreases |b|
  {
    if b == [] {
      assert a + b == a;
    } else {
      var b' := b[..|b| - 1];
      assert (a + b)[..|a + b| - 1] == a + b';
      ParseLinesAppend(a, b', parse);
    }
  }

  /** Reading one more line. */
  lemma ParseStep(lines: seq<string>, i: nat, parse: string -> Option<Record>)
    requires i < |lines|
    ensures ParseLines(lines[..i + 1], parse) == ParseLines(lines[..i], parse) + LineRecords(lines[i], parse)
  {
    assert lines[..i + 1][..i] == lines[..i];
  }

  /** A blank or broken line is skipped and reading goes on after it. */
  lemma {:induction false} ParseLinesSkipsBad(a: seq<string>, line: string, b: seq<string>, parse: string -> Option<Record>)
    requires IsBlank(line) || parse(Strip(line)).None?
    ensures ParseLines(a + [line] + b, parse) == ParseLines(a + b, parse)
  {
    assert LineRecords(line, parse) == [];
    assert ParseLines([line], parse) == [] by {
      assert [line][..0] == [];
    }
    ParseLinesAppend(a + [line], b, parse);
    ParseLinesAppend(a, [line], parse);
    ParseLinesAppend(a, b, parse);
  }

  /** When every line is non-blank and parses, every line gives its record,
      in order. */
  lemma {:induction false} ParseLinesAllGood(lines: seq<string>, parse: string -> Option<Record>)
    requires forall i :: 0 <= i < |lines| ==> !IsBlank(lines[i]) && parse(Strip(lines[i])).Some?
    ensures |ParseLines(lines, parse)| == |lines|
    ensures forall i :: 0 <= i < |lines| ==> ParseLines(lines, parse)[i] == parse(Strip(lines[i])).value
  {
    if lines != [] {
      var init := lines[..|lines| - 1];
      ParseLinesAllGood(init, parse);
      var last := lines[|lines| - 1];
      assert LineRecords(last, parse) == [parse(Strip(last)).value];
      var r := ParseLines(lines, parse);
      assert r == ParseLines(init, parse) + [parse(Strip(last)).value];
      forall i | 0 <= i < |lines| ensures r[i] == parse(Strip(lines[i])).value {
        if i < |init| {
          assert lines[i] == init[i];
        }
      }
    }
  }

  /** The body of read_ndjson_gz's loop: the stripped line, skipped when
      empty or not valid JSON. */
  method ReadLine(raw: string, parse: string -> Option<Record>) returns (rec: seq<Record>)
    ensures rec == LineRecords(raw, parse)
  {
    var line := Strip(raw);
    if line == "" {
      return [];
    }
    var it := parse(line);
    if it.None? {
      return [];
    }
    rec := [it.value];
  }

  /** read_ndjson_gz: a missing file reads as no records. */
  method ReadNdjson(file: Option<seq<string>>, parse: string -> Option<Record>) returns (items: seq<Record>)
    ensures file.None? ==> items == []
    ensures file.Some? ==> items == ParseLines(file.value, parse)
  {
    if file.None? {
      return [];
    }
    var lines := file.value;
    items := [];
    for i := 0 to |lines|
      invariant items == ParseLines(lines[..i], parse)
    {
      ParseStep(lines, i, parse);
      var rec := ReadLine(lines[i], parse);
      items := items + rec;
    }
    assert lines[..|lines|] == lines;
  }

  /** The non-empty links of some records. */
  function LinksPresent(rs: seq<Record>): set<string> {
    set r | r in rs && r.link != "" :: r.link
  }

  lemma LinksPresentSnoc(rs: seq<Record>, extra: seq<Record>)
    ensures LinksPresent(rs + extra) == LinksPresent(rs) + LinksPresent(extra)
  {
    forall k | k in LinksPresent(rs + extra) ensures k in LinksPresent(rs) + LinksPresent(extra) {
      var r :| r in rs + extra && r.link != "" && r.link == k;
    }
  }

  /** The body of read_latest_links's loop: the link of the stripped line's
      record when the line is valid JSON and the link is non-empty. */
  method LineLinks(raw: string, parse: string -> Option<Record>) returns (ls: set<string>)
    ensures ls == LinksPresent(LineRecords(raw, parse))
  {
    var line := Strip(raw);
    if line == "" {
      return {};
    }
    var it := parse(line);
    if it.None? {
      return {};
    }
    var lk := it.value.link;
    if lk != "" {
      ls := {lk};
    } else {
      ls := {};
    }
  }

  /** read_latest_links: the non-empty links of the latest file's records;
      none when the file is missing. */
  method ReadLatestLinks(file: Option<seq<string>>, parse: string -> Option<Record>) returns (links: set<string>)
    ensures file.None? ==> links == {}
    ensures file.Some? ==> links == LinksPresent(ParseLines(file.value, parse))
    ensures "" !in links
  {
    if file.None? {
      return {};
    }
    var lines := file.value;
    links := {};
    for i := 0 to |lines|
      invariant links == LinksPresent(ParseLines(lines[..i], parse))
    {
      ParseStep(lines, i, parse);
      LinksPresentSnoc(ParseLines(lines[..i], parse), LineRecords(lines[i], parse));
      var ls := LineLinks(lines[i], parse);
      links := links + ls;
    }
    assert lines[..|lines|] == lines;
  }
}
