/**
 The report catalog behind the `/port`, `/port-list` and `/port/:id` routes.
 A report lives in the report directory as `<language>.<time>.<title>.md`,
 where the title may itself contain dots. Listing keeps the directory
 entries ending in `.md`, removes the first `.md` from each name, splits the
 rest on `.` and builds one record per entry, in listing order.
 */
module ReportCatalog {
  import opened Wrappers
  import opened JsBuiltins

  /** A file as the server sees it when it asks for it by name: absent, present
      but failing to read (a directory, no permission), or readable text. */
  datatype FileState = Missing | Unreadable | Readable(text: string)

  /** A directory: the state of each entry name in it. */
  type Dir = string -> FileState

  /** The three fields a report name destructures into; `time` is None where
      JavaScript leaves it `undefined`. */
  datatype Header = Header(language: string, time: Option<string>, title: string)

  /** One record of the list handed to the report views. */
  datatype Report = Report(language: string, time: Option<string>, title: string, html: string)

  const Extension := ".md"

  /** A directory entry is a report file when its name ends in `.md`. */
  predicate IsReportFile(f: string): (b: bool)
    ensures b <==> |f| >= 3 && f[|f| - 3] == '.' && f[|f| - 2] == 'm' && f[|f| - 1] == 'd'
  {
    EndsWith(f, Extension)
  }

  /** The report files of a listing: the entries that are report files. */
  function Keep(files: seq<string>): (kept: seq<string>)
    ensures forall k :: 0 <= k < |kept| ==> IsReportFile(kept[k])
  {
    Filter(files, IsReportFile)
  }

  /** The kept entries are exactly the `.md` entries of the listing, each as
      often as it is listed, in listing order: they are the entries at a
      strictly increasing run of positions, and a position is in that run
      exactly when its entry ends in `.md`. */
  lemma KeepIsOrderedSelection(files: seq<string>)
    ensures forall f :: multiset(Keep(files))[f] == if IsReportFile(f) then multiset(files)[f] else 0
    ensures var ix := FilterPositions(files, IsReportFile);
      && |ix| == |Keep(files)|
      && (forall k :: 0 <= k < |ix| ==> ix[k] < |files| && files[ix[k]] == Keep(files)[k])
      && Increasing(ix)
      && (forall j :: 0 <= j < |files| ==> (IsReportFile(files[j]) <==> j in ix))
  {
    forall f ensures multiset(Keep(files))[f] == if IsReportFile(f) then multiset(files)[f] else 0 {
      FilterCounts(files, IsReportFile, f);
    }
    FilterSelectsAtPositions(files, IsReportFile);
    FilterPositionsIncrease(files, IsReportFile);
    FilterPositionsExact(files, IsReportFile);
  }

  /** The stem of a report file name: the name with its first `.md` taken out,
      as a string-pattern replace does. */
  function StripMd(f: string): (r: string)
    ensures (forall j: nat :: !OccursAt(f, Extension, j)) ==> r == f
    ensures IsReportFile(f) ==> |r| + |Extension| == |f|
  {
    RemoveFirst(f, Extension)
  }

  /** Stripping removes the first `.md` in the name, whether or not it is the
      suffix, and nothing else. */
  lemma StripMdRemovesFirst(f: string, i: nat)
    requires OccursAt(f, Extension, i)
    requires forall j: nat :: j < i ==> !OccursAt(f, Extension, j)
    ensures StripMd(f) == f[..i] + f[i + 3..]
    ensures |StripMd(f)| == |f| - 3
  {
  }

  /** When `.md` occurs in a report file's name only as its suffix, the stem is
      the name without its last three characters. */
  lemma StripMdSuffix(f: string)
    requires IsReportFile(f)
    requires forall j: nat :: j < |f| - 3 ==> !OccursAt(f, Extension, j)
    ensures StripMd(f) == f[..|f| - 3]
  {
    StripMdRemovesFirst(f, |f| - 3);
  }

  /** A report file named by a stem that has no `.md` in it strips back to
      that stem. */
  lemma StripMdOfStem(stem: string)
    requires forall j: nat :: !OccursAt(stem, Extension, j)
    ensures StripMd(stem + Extension) == stem
  {
    var f := stem + Extension;
    forall j: nat | j < |stem| ensures !OccursAt(f, Extension, j) {
      if j + 3 <= |stem| {
        assert f[j..j + 3] == stem[j..j + 3];
        assert !OccursAt(stem, Extension, j);
      } else if j + 1 == |stem| {
        assert f[j + 1] == '.';
        assert f[j..j + 3][1] != Extension[1];
      } else {
        assert f[j + 2] == '.';
        assert f[j..j + 3][2] != Extension[2];
      }
    }
    assert f[|stem|..] == Extension;
    StripMdRemovesFirst(f, |stem|);
  }

  /** A stem without the letter `m` has no `.md` in it. */
  lemma NoExtensionWithoutM(stem: string)
    requires 'm' !in stem
    ensures forall j: nat :: !OccursAt(stem, Extension, j)
  {
    forall j: nat ensures !OccursAt(stem, Extension, j) {
      if j + 3 <= |stem| {
        assert stem[j..j + 3][1] == stem[j + 1];
      }
    }
  }

  /** An earlier `.md` inside the name is removed instead of the suffix. */
  lemma StripMdInnerOccurrence()
    ensures StripMd("en.md-guide.md") == "en-guide.md"
  {
    var f := "en.md-guide.md";
    assert f[2..5] == Extension;
    assert IndexOf(f, Extension, 2) == Some(2);
    assert f[1..4][0] == f[1] != '.';
    assert IndexOf(f, Extension, 1) == Some(2);
    assert f[0..3][0] == f[0] != '.';
    assert IndexOf(f, Extension, 0) == Some(2);
    assert f[..2] + f[5..] == "en-guide.md";
  }

  /** ... so the language and time of such a report come out wrong. */
  lemma InnerOccurrenceMisparsed()
    ensures ParseStem(StripMd("en.md-guide.md")) == Header("en-guide", Some("md"), "")
  {
    StripMdInnerOccurrence();
    SplitOfInnerStem();
    var parts := ["en-guide", "md"];
    assert ParseStem("en-guide.md") == Destructure(parts);
  }

  /** The stem left by that name splits into two parts. */
  lemma SplitOfInnerStem()
    ensures Split("en-guide.md", '.') == ["en-guide", "md"]
  {
    assert "en-guide.md" == "en-guide" + "." + "md";
    SplitAfterFirst("en-guide", '.', "md");
    assert '.' !in "md";
  }

  /** Array destructuring of the parts into language, time and the rest,
      the rest then joined with dots. A missing second part leaves `time`
      undefined (None); fewer than three parts leave the title empty. */
  function Destructure(parts: seq<string>): (h: Header)
    requires |parts| >= 1
    ensures h.language == parts[0]
    ensures h.time.None? <==> |parts| == 1
    ensures h.time.Some? ==> h.time.value == parts[1]
    ensures |parts| < 3 ==> h.title == ""
    ensures (forall k :: 0 <= k < |parts| ==> '.' !in parts[k]) ==> ('.' in h.title <==> |parts| >= 4)
  {
    Header(parts[0],
           if |parts| >= 2 then Some(parts[1]) else None,
           Join(if |parts| >= 2 then parts[2..] else [], '.'))
  }

  /** The fields of a report name: its stem split on `.` and destructured.
      A stem with fewer than two dots has fewer than three parts and so an
      empty title. */
  function ParseStem(stem: string): (h: Header)
    ensures '.' !in h.language && h.language <= stem
    ensures h.time.Some? ==> '.' !in h.time.value
    ensures h.time.None? <==> '.' !in stem
    ensures h.time.None? ==> h.language == stem
    ensures |Split(stem, '.')| < 3 ==> h.title == ""
    ensures multiset(stem)['.'] < 2 ==> h.title == ""
  {
    SplitCount(stem, '.');
    Destructure(Split(stem, '.'))
  }

  /** Destructured parts joined back with dots give the join of the parts. */
  lemma JoinDestructured(parts: seq<string>)
    requires |parts| >= 2
    ensures var h := Destructure(parts);
      h.time.Some? &&
      if |parts| >= 3 then h.language + "." + h.time.value + "." + h.title == Join(parts, '.')
      else h.language + "." + h.time.value == Join(parts, '.')
  {
    assert "." == ['.'];
    JoinFront(parts, '.');
  }

  /** The fields put back together with dots give the stem again. */
  lemma ReassembleStem(stem: string)
    requires '.' in stem
    ensures var h := ParseStem(stem);
      h.time.Some? &&
      if |Split(stem, '.')| >= 3 then h.language + "." + h.time.value + "." + h.title == stem
      else h.language + "." + h.time.value == stem
  {
    JoinSplit(stem, '.');
    JoinDestructured(Split(stem, '.'));
  }

  /** A name assembled from a dot-free language, a dot-free time and any
      title parses back into exactly those three fields. */
  lemma ParseStemOfFields(language: string, time: string, title: string)
    requires '.' !in language && '.' !in time
    ensures ParseStem(language + "." + time + "." + title) == Header(language, Some(time), title)
  {
    var parts := Split(language + "." + time + "." + title, '.');
    SplitOfFields(language, time, title);
    assert parts[0] == language && parts[1] == time && parts[2..] == Split(title, '.');
    JoinSplit(title, '.');
  }

  /** A name made of a dot-free language, a dot-free time and a title splits
      into the language, the time and the parts of the title. */
  lemma SplitOfFields(language: string, time: string, title: string)
    requires '.' !in language && '.' !in time
    ensures Split(language + "." + time + "." + title, '.') == [language, time] + Split(title, '.')
  {
    SplitAfterTwo(language, time, title, '.');
  }

  /** The record built from a name stem and the content of its file. */
  function ReportOf(stem: string, content: string, toHtml: string -> string): Report {
    var h := ParseStem(stem);
    Report(h.language, h.time, h.title, toHtml(content))
  }

  /** A record carries the HTML of its content and the fields of its stem:
      a dot-free language at the front of the stem, a time that is missing
      exactly when the stem has no dot and is otherwise dot-free. */
  lemma ReportOfFields(stem: string, content: string, toHtml: string -> string)
    ensures var r := ReportOf(stem, content, toHtml);
      r.html == toHtml(content) &&
      '.' !in r.language && r.language <= stem &&
      (r.time.None? <==> '.' !in stem) &&
      (r.time.Some? ==> '.' !in r.time.value)
  {
  }

  /** The map over the kept files: each is read and turned into a record.
      None when some read throws, which aborts the whole map. */
  function Reports(kept: seq<string>, dir: Dir, toHtml: string -> string): (r: Option<seq<Report>>)
    ensures r.Some? <==> forall k :: 0 <= k < |kept| ==> dir(kept[k]).Readable?
    ensures r.Some? ==> |r.value| == |kept|
    ensures r.Some? ==> forall k :: 0 <= k < |kept| ==>
      r.value[k] == ReportOf(StripMd(kept[k]), dir(kept[k]).text, toHtml)
  {
    MapOrThrow(kept, f => if dir(f).Readable? then Some(ReportOf(StripMd(f), dir(f).text, toHtml)) else None)
  }

  /** The naming convention read back: a report file named
      `<language>.<time>.<title>.md`, with a dot-free language and time and no
      `.md` before the suffix, parses into exactly those three fields, however
      many dots the title holds. */
  lemma ParseReportFileName(language: string, time: string, title: string)
    requires '.' !in language && '.' !in time
    requires forall j: nat :: !OccursAt(language + "." + time + "." + title, Extension, j)
    ensures ParseStem(StripMd(language + "." + time + "." + title + Extension))
      == Header(language, Some(time), title)
  {
    StripMdOfStem(language + "." + time + "." + title);
    ParseStemOfFields(language, time, title);
  }

  /** A report file with a dotted title: `en.2023-01-01.My.Report.md`. */
  lemma ExampleName()
    ensures ParseStem(StripMd("en.2023-01-01.My.Report.md")) == Header("en", Some("2023-01-01"), "My.Report")
  {
    var stem := "en.2023-01-01.My.Report";
    assert stem == "en" + "." + "2023-01-01" + "." + "My.Report";
    assert stem + Extension == "en.2023-01-01.My.Report.md";
    NoExtensionWithoutM(stem);
    ParseReportFileName("en", "2023-01-01", "My.Report");
  }

  /** Listing that file beside a non-report file yields one record for it. */
  lemma ExampleListing(dir: Dir, toHtml: string -> string)
    requires dir("en.2023-01-01.My.Report.md") == Readable("# Title")
    ensures Reports(Keep(["notes.txt", "en.2023-01-01.My.Report.md"]), dir, toHtml)
      == Some([Report("en", Some("2023-01-01"), "My.Report", toHtml("# Title"))])
  {
    var f := "en.2023-01-01.My.Report.md";
    assert !IsReportFile("notes.txt");
    assert IsReportFile(f);
    assert ["notes.txt", f][1..] == [f] && [f][1..] == [];
    assert Filter([f], IsReportFile) == [f];
    assert Keep(["notes.txt", f]) == [f];
    ExampleName();
    var r := Reports([f], dir, toHtml);
    assert r.Some? && |r.value| == 1;
    assert r.value[0] == ReportOf(StripMd(f), "# Title", toHtml);
    var expected := Report("en", Some("2023-01-01"), "My.Report", toHtml("# Title"));
    assert ReportOf(StripMd(f), "# Title", toHtml) == expected;
    assert r.value == [expected];
  }
}
