/** The deterministic rules of CKANChatQA.forward: how the search query is
    taken from the extracted keywords, which search results become
    candidates, how each candidate is summarised for the selector, how the
    selector's index is made safe, which resource of the chosen package is
    downloaded, and how the rows of the download are counted. The language
    model's outputs (the keyword string, the chosen index) and the HTTP calls
    (search, package details, download) are inputs. */
module Pipeline {
  import opened PyStr
  import opened Catalog

  /** At most this many CSV-bearing search results are offered to the selector. */
  const MaxCandidates: nat := 5
  /** A candidate's description is cut to this many characters. */
  const DescriptionLimit: nat := 200

  const NoDatasetsMessage: string := "No datasets with CSV resources found."

  function NoCsvFileMessage(p: Package): string
  {
    "No suitable CSV data file found in package '" + GetOr(p.title, p.id) + "'."
  }

  // ---------------------------------------------------------------------------
  // 1. The search query
  // ---------------------------------------------------------------------------

  /** Every keyword is empty once stripped. */
  predicate AllBlank(parts: seq<string>)
  {
    forall k :: 0 <= k < |parts| ==> Strip(parts[k]) == []
  }

  /** [k.strip() for k in parts if k.strip()] */
  function KeywordList(parts: seq<string>): (kws: seq<string>)
    ensures forall k :: 0 <= k < |kws| ==> kws[k] != []
    ensures kws == [] <==> AllBlank(parts)
    ensures kws != [] ==>
      exists i :: 0 <= i < |parts| && kws[0] == Strip(parts[i]) && AllBlank(parts[..i])
  {
    if parts == [] then []
    else
      var rest := KeywordList(parts[1..]);
      assert forall k :: 1 <= k < |parts| ==> parts[k] == parts[1..][k - 1];
      if Strip(parts[0]) != [] then
        assert AllBlank(parts[..0]);
        [Strip(parts[0])] + rest
      else
        assert forall i :: 0 <= i < |parts| - 1 ==> parts[..i + 1] == [parts[0]] + parts[1..][..i];
        rest
  }

  /** The query sent to the catalog: the first comma-separated keyword that is
      not blank, stripped of surrounding whitespace; the raw keyword string when
      every keyword is blank. */
  function SearchQuery(keywords: string): (q: string)
    ensures AllBlank(Split(keywords, ',')) ==> q == keywords
    ensures !AllBlank(Split(keywords, ',')) ==>
      && q != []
      && exists i :: 0 <= i < |Split(keywords, ',')| && q == Strip(Split(keywords, ',')[i])
           && AllBlank(Split(keywords, ',')[..i])
  {
    var keywordList := KeywordList(Split(keywords, ','));
    if keywordList != [] then keywordList[0] else keywords
  }

  /** Every character of Strip(s) is a character of s. */
  lemma StripWithin(s: string, c: char)
    requires c in Strip(s)
    ensures c in s
  {
    var t := TrimStart(s);
    TrimStartSpec(s);
    TrimEndSpec(t);
    var k :| 0 <= k < |Strip(s)| && Strip(s)[k] == c;
    assert t[k] == c;
    assert s[|s| - |t| + k] == c;
  }

  /** A query taken from a keyword holds no comma and is already stripped. */
  lemma SearchQueryIsCleanToken(keywords: string)
    requires !AllBlank(Split(keywords, ','))
    ensures var q := SearchQuery(keywords);
      q != [] && ',' !in q && !IsSpace(q[0]) && !IsSpace(q[|q| - 1])
  {
    var parts := Split(keywords, ',');
    var q := SearchQuery(keywords);
    var i :| 0 <= i < |parts| && q == Strip(parts[i]);
    StripEmptyIff(parts[i]);
    if ',' in q {
      StripWithin(parts[i], ',');
      assert false;
    }
  }

  // ---------------------------------------------------------------------------
  // 2-3. The candidate list
  // ---------------------------------------------------------------------------

  /** [ds for ds in results if has_csv_resource(ds)] */
  function CsvPackages(results: seq<Package>): (r: seq<Package>)
    ensures |r| <= |results|
    ensures forall k :: 0 <= k < |r| ==> HasCsvResource(r[k])
    ensures r == [] <==> forall k :: 0 <= k < |results| ==> !HasCsvResource(results[k])
  {
    if results == [] then []
    else
      var rest := CsvPackages(results[1..]);
      assert forall k :: 1 <= k < |results| ==> results[k] == results[1..][k - 1];
      (if HasCsvResource(results[0]) then [results[0]] else []) + rest
  }

  /** The search results offered to the selector: the CSV-bearing ones, in
      search order, at most MaxCandidates of them. */
  function Candidates(results: seq<Package>): (datasets: seq<Package>)
    ensures |datasets| <= MaxCandidates
    ensures forall k :: 0 <= k < |datasets| ==> HasCsvResource(datasets[k])
    ensures datasets == [] <==> forall k :: 0 <= k < |results| ==> !HasCsvResource(results[k])
  {
    var all := CsvPackages(results);
    if |all| <= MaxCandidates then all else all[..MaxCandidates]
  }

  /** The positions from `from` on of the CSV-bearing entries of `results`,
      in order. */
  function QualifyingPositions(results: seq<Package>, from: nat): (pos: seq<nat>)
    requires from <= |results|
    ensures forall k :: 0 <= k < |pos| ==> from <= pos[k] < |results|
    decreases |results| - from
  {
    if from == |results| then []
    else
      (if HasCsvResource(results[from]) then [from] else [])
      + QualifyingPositions(results, from + 1)
  }

  predicate Increasing(pos: seq<nat>)
  {
    forall k, l :: 0 <= k < l < |pos| ==> pos[k] < pos[l]
  }

  lemma IncreasingCons(i: nat, tail: seq<nat>)
    requires Increasing(tail) && forall k :: 0 <= k < |tail| ==> i < tail[k]
    ensures Increasing([i] + tail)
  {
    var pos := [i] + tail;
    forall k, l | 0 <= k < l < |pos| ensures pos[k] < pos[l] {
      assert pos[l] == tail[l - 1];
      if k > 0 {
        assert pos[k] == tail[k - 1];
      }
    }
  }

  lemma {:induction false} PositionsIncreasing(results: seq<Package>, from: nat)
    requires from <= |results|
    ensures Increasing(QualifyingPositions(results, from))
    decreases |results| - from
  {
    if from < |results| {
      PositionsIncreasing(results, from + 1);
      var tp := QualifyingPositions(results, from + 1);
      if HasCsvResource(results[from]) {
        assert QualifyingPositions(results, from) == [from] + tp;
        IncreasingCons(from, tp);
      } else {
        assert QualifyingPositions(results, from) == tp;
      }
    }
  }

  /** Entry k of `picked` is the result at position `at[k]`. */
  predicate Picks(results: seq<Package>, at: seq<nat>, picked: seq<Package>)
  {
    |at| == |picked| && forall k :: 0 <= k < |at| ==> at[k] < |results| && picked[k] == results[at[k]]
  }

  lemma PicksCons(results: seq<Package>, i: nat, at: seq<nat>, picked: seq<Package>)
    requires i < |results| && Picks(results, at, picked)
    ensures Picks(results, [i] + at, [results[i]] + picked)
  {
    var at', picked' := [i] + at, [results[i]] + picked;
    forall k | 0 <= k < |at'| ensures at'[k] < |results| && picked'[k] == results[at'[k]] {
      if k > 0 {
        assert at'[k] == at[k - 1] && picked'[k] == picked[k - 1];
      }
    }
  }

  lemma {:induction false} PositionsSelect(results: seq<Package>, from: nat)
    requires from <= |results|
    ensures Picks(results, QualifyingPositions(results, from), CsvPackages(results[from..]))
    decreases |results| - from
  {
    if from < |results| {
      PositionsSelect(results, from + 1);
      var tp := QualifyingPositions(results, from + 1);
      var tr := CsvPackages(results[from + 1..]);
      var tail := results[from..];
      assert tail[0] == results[from];
      assert tail[1..] == results[from + 1..];
      if HasCsvResource(results[from]) {
        assert QualifyingPositions(results, from) == [from] + tp;
        assert CsvPackages(tail) == [results[from]] + tr;
        PicksCons(results, from, tp, tr);
      } else {
        assert QualifyingPositions(results, from) == tp;
        assert CsvPackages(tail) == tr;
      }
    }
  }

  lemma {:induction false} PositionsMembership(results: seq<Package>, from: nat)
    requires from <= |results|
    ensures forall i :: from <= i < |results| ==>
      (HasCsvResource(results[i]) <==> i in QualifyingPositions(results, from))
    decreases |results| - from
  {
    if from < |results| {
      PositionsMembership(results, from + 1);
      var tp := QualifyingPositions(results, from + 1);
      assert from !in tp;
    }
  }

  /** The positions of the CSV-bearing search results. */
  function Positions(results: seq<Package>): seq<nat>
  {
    QualifyingPositions(results, 0)
  }

  /** The filter keeps exactly the CSV-bearing entries, each once, in the
      order of the search results. */
  lemma CsvPackagesPositions(results: seq<Package>)
    ensures |Positions(results)| == |CsvPackages(results)|
    ensures forall k :: 0 <= k < |Positions(results)| ==>
      Positions(results)[k] < |results| && CsvPackages(results)[k] == results[Positions(results)[k]]
    ensures Increasing(Positions(results))
    ensures forall i :: 0 <= i < |results| ==> (HasCsvResource(results[i]) <==> i in Positions(results))
  {
    PositionsIncreasing(results, 0);
    PositionsSelect(results, 0);
    PositionsMembership(results, 0);
    assert results[0..] == results;
  }

  /** The candidates are the first min(5, n) of the n CSV-bearing results, in
      search order. */
  lemma CandidatesAreFirstQualifying(results: seq<Package>)
    ensures |Candidates(results)| ==
      if |Positions(results)| <= MaxCandidates then |Positions(results)| else MaxCandidates
    ensures forall k :: 0 <= k < |Candidates(results)| ==>
      k < |Positions(results)| && Positions(results)[k] < |results|
      && Candidates(results)[k] == results[Positions(results)[k]]
  {
    CsvPackagesPositions(results);
  }

  lemma {:induction false} CsvPackagesAppend(a: seq<Package>, b: seq<Package>)
    ensures CsvPackages(a + b) == CsvPackages(a) + CsvPackages(b)
  {
    if a != [] {
      var h := if HasCsvResource(a[0]) then [a[0]] else [];
      var ab := a + b;
      assert ab[0] == a[0] && ab[1..] == a[1..] + b;
      CsvPackagesAppend(a[1..], b);
      calc {
        CsvPackages(ab);
        h + CsvPackages(ab[1..]);
        h + (CsvPackages(a[1..]) + CsvPackages(b));
        (h + CsvPackages(a[1..])) + CsvPackages(b);
        CsvPackages(a) + CsvPackages(b);
      }
    } else {
      assert a + b == b;
    }
  }

  /** Once five CSV-bearing results have been seen, later results make no
      difference to the candidates. */
  lemma CandidatesIgnoreLaterResults(a: seq<Package>, b: seq<Package>)
    requires |CsvPackages(a)| >= MaxCandidates
    ensures Candidates(a + b) == Candidates(a)
  {
    CsvPackagesAppend(a, b);
    assert (CsvPackages(a) + CsvPackages(b))[..MaxCandidates] == CsvPackages(a)[..MaxCandidates];
  }

  // ---------------------------------------------------------------------------
  // 4. The summaries shown to the selector
  // ---------------------------------------------------------------------------

  /** The parts of one summary line. */
  datatype Summary = Summary(index: nat, title: string, description: string, formats: string)

  /** ds.get('format', '') for every resource, CSV or not, in order. */
  function Formats(rs: seq<Resource>): seq<string>
  {
    seq(|rs|, k requires 0 <= k < |rs| => GetOr(rs[k].format, ""))
  }

  function Summarize(i: nat, p: Package): Summary
  {
    Summary(i, GetOr(p.title, ""), Take(GetOr(p.notes, ""), DescriptionLimit),
            Join(Formats(ResourcesOf(p)), ", "))
  }

  function Render(s: Summary): string
  {
    "[" + Decimal(s.index) + "] Title: " + s.title + "\nDescription: " + s.description
      + "\nFormats: " + s.formats
  }

  /** The first position of `c` in `s`. */
  function IndexOf(s: string, c: char): (r: Option<nat>)
    ensures r.None? <==> c !in s
    ensures r.Some? ==> r.value < |s| && s[r.value] == c && c !in s[..r.value]
  {
    if s == [] then None
    else if s[0] == c then Some(0)
    else
      match IndexOf(s[1..], c)
      case None => None
      case Some(i) =>
        assert s[..i + 1] == [s[0]] + s[1..][..i];
        Some(i + 1)
  }

  lemma {:induction false} IndexOfAfter(a: string, t: string, c: char)
    requires c !in a && t != [] && t[0] == c
    ensures IndexOf(a + t, c) == Some(|a|)
  {
    if a != [] {
      assert (a + t)[1..] == a[1..] + t;
      assert a[0] in a;
      IndexOfAfter(a[1..], t, c);
    }
  }

  /** Reads the number in "[n]" at the start of a summary line. */
  function SummaryIndex(line: string): Option<nat>
  {
    if line == [] || line[0] != '[' then None
    else
      match IndexOf(line[1..], ']')
      case None => None
      case Some(k) =>
        var digits := line[1..][..k];
        if digits != [] && AllDigits(digits) then Some(DigitsValue(digits)) else None
  }

  /** A line "[" + digits + "]..." reads back as the value of the digits. */
  lemma {:induction false} SummaryIndexOfDigits(d: string, tail: string)
    requires d != [] && AllDigits(d)
    requires tail != [] && tail[0] == ']'
    ensures SummaryIndex(['['] + d + tail) == Some(DigitsValue(d))
  {
    var line := ['['] + d + tail;
    assert line[0] == '[';
    assert line[1..] == d + tail;
    assert forall k :: 0 <= k < |d| ==> d[k] != ']';
    IndexOfAfter(d, tail, ']');
    assert (d + tail)[..|d|] == d;
  }

  /** The number at the head of a rendered summary reads back as its index. */
  lemma {:induction false} RenderIndex(s: Summary)
    ensures SummaryIndex(Render(s)) == Some(s.index)
  {
    var d := Decimal(s.index);
    var tail := "] Title: " + s.title + "\nDescription: " + s.description + "\nFormats: " + s.formats;
    assert tail[0] == ']';
    assert Render(s) == ['['] + d + tail;
    SummaryIndexOfDigits(d, tail);
    DecimalRoundTrip(s.index);
  }

  /** One line per candidate, in candidate order, each opening with "[i]" for
      its own position i. */
  function Summaries(datasets: seq<Package>): (lines: seq<string>)
    ensures |lines| == |datasets|
    ensures forall k :: 0 <= k < |lines| ==> SummaryIndex(lines[k]) == Some(k)
    ensures forall k :: 0 <= k < |lines| ==> lines[k] == Render(Summarize(k, datasets[k]))
  {
    var lines := seq(|datasets|, k requires 0 <= k < |datasets| => Render(Summarize(k, datasets[k])));
    assert forall k :: 0 <= k < |lines| ==> SummaryIndex(lines[k]) == Some(k) by {
      forall k | 0 <= k < |lines| ensures SummaryIndex(lines[k]) == Some(k) {
        RenderIndex(Summarize(k, datasets[k]));
      }
    }
    lines
  }

  /** The description shown is the start of the package notes: the whole notes
      when they have at most 200 characters, otherwise their first 200, with
      nothing appended. */
  lemma SummaryDescription(i: nat, p: Package)
    ensures var notes := GetOr(p.notes, ""); var d := Summarize(i, p).description;
      && d <= notes
      && (|notes| <= DescriptionLimit ==> d == notes)
      && (|notes| > DescriptionLimit ==> |d| == DescriptionLimit)
  {
  }

  /** " " + g for every g. */
  function Prefixed(gs: seq<string>): (r: seq<string>)
    ensures |r| == |gs|
  {
    seq(|gs|, k requires 0 <= k < |gs| => " " + gs[k])
  }

  lemma {:induction false} JoinPrefixed(gs: seq<string>)
    requires gs != []
    ensures Join(Prefixed(gs), ",") == " " + Join(gs, ", ")
  {
    if |gs| > 1 {
      JoinPrefixed(gs[1..]);
      assert Prefixed(gs)[1..] == Prefixed(gs[1..]);
    }
  }

  /** The formats part lists the format of every resource, in resource order:
      when no format holds a comma, splitting it on commas gives the first
      format and then each further one behind the space of ", ". */
  lemma {:induction false} SummaryFormats(i: nat, p: Package)
    requires ResourcesOf(p) != []
    requires forall k :: 0 <= k < |ResourcesOf(p)| ==> ',' !in GetOr(ResourcesOf(p)[k].format, "")
    ensures var fs := Formats(ResourcesOf(p));
      Split(Summarize(i, p).formats, ',') == [fs[0]] + Prefixed(fs[1..])
  {
    var fs := Formats(ResourcesOf(p));
    var pieces := [fs[0]] + Prefixed(fs[1..]);
    if |fs| == 1 {
      assert pieces == fs;
    } else {
      JoinPrefixed(fs[1..]);
      assert pieces[1..] == Prefixed(fs[1..]);
      assert Join(pieces, ",") == fs[0] + "," + " " + Join(fs[1..], ", ");
      assert Join(fs, ", ") == fs[0] + ", " + Join(fs[1..], ", ");
    }
    assert Join(pieces, [',']) == Join(fs, ", ");
    forall k | 0 <= k < |pieces| ensures ',' !in pieces[k] {
      if k > 0 {
        assert pieces[k] == " " + fs[k];
      }
    }
    SplitJoin(pieces, ',');
  }

  // ---------------------------------------------------------------------------
  // 5. The selector's index
  // ---------------------------------------------------------------------------

  /** The selector's index if it names a candidate, 0 otherwise. */
  function ClampIndex(idx: int, n: nat): (i: nat)
    requires n > 0
    ensures i < n
    ensures 0 <= idx < n ==> i == idx
    ensures !(0 <= idx < n) ==> i == 0
  {
    if !(0 <= idx < n) then 0 else idx
  }

  // ---------------------------------------------------------------------------
  // 6. The resource to download
  // ---------------------------------------------------------------------------

  /** next(i for i, r in enumerate(rs) if r is a CSV resource), or None. */
  function FirstCsvIndex(rs: seq<Resource>): (r: Option<nat>)
    ensures r.None? <==> forall k :: 0 <= k < |rs| ==> !IsCsvResource(rs[k])
    ensures r.Some? ==>
      r.value < |rs| && IsCsvResource(rs[r.value])
      && forall k :: 0 <= k < r.value ==> !IsCsvResource(rs[k])
  {
    if rs == [] then None
    else if IsCsvResource(rs[0]) then Some(0)
    else
      assert forall k :: 1 <= k < |rs| ==> rs[k] == rs[1..][k - 1];
      match FirstCsvIndex(rs[1..])
      case None => None
      case Some(i) => Some(i + 1)
  }

  /** The first CSV resource of the freshly fetched package details, if any. */
  function ChooseResource(details: Package): (r: Option<Resource>)
    ensures r.None? <==> !HasCsvResource(details)
    ensures r.Some? ==>
      exists i :: 0 <= i < |ResourcesOf(details)| && ResourcesOf(details)[i] == r.value
        && IsCsvResource(r.value)
        && forall k :: 0 <= k < i ==> !IsCsvResource(ResourcesOf(details)[k])
  {
    AnyCsvIff(ResourcesOf(details));
    match FirstCsvIndex(ResourcesOf(details))
    case None => None
    case Some(i) => Some(ResourcesOf(details)[i])
  }

  // ---------------------------------------------------------------------------
  // 7. The row count of the download
  // ---------------------------------------------------------------------------

  /** The number of lines of the downloaded text minus the header line: the
      '\n' characters, plus one for an unterminated last line, minus one. An
      empty text gives -1. */
  function RowCount(text: string): (n: int)
    ensures n == Count(text, '\n') + (if text != [] && text[|text| - 1] != '\n' then 1 else 0) - 1
    ensures text == [] ==> n == -1
  {
    LinesCount(text);
    |Lines(text)| - 1
  }

  // ---------------------------------------------------------------------------
  // The whole of forward()
  // ---------------------------------------------------------------------------

  /** What is handed to the answer synthesiser; the column names and sample
      rows that pandas reads from the download are not modelled. */
  datatype CsvContext = CsvContext(resourceName: Option<string>, resourceUrl: string, totalRows: int)

  /** forward() either replies with a fixed message or asks the synthesiser to
      answer from the chosen package's CSV file. */
  datatype Outcome =
    | Reply(text: string)
    | Synthesize(package: Package, resource: Resource, context: CsvContext)

  lemma MessagesDiffer(p: Package)
    ensures NoCsvFileMessage(p) != NoDatasetsMessage
  {
    assert NoCsvFileMessage(p)[3] == 's';
  }

  /** The rules of forward() in order. `search` is package_search on a query,
      `select` the dataset selector on the summaries, `fetch` package_show on
      an id, `download` the text at a URL. */
  function Forward(
    keywords: string,
    search: string -> seq<Package>,
    select: seq<string> -> int,
    fetch: string -> Package,
    download: string -> string): (o: Outcome)
    ensures o.Synthesize? ==> o.resource.url.Some? && EndsWith(o.resource.url.value, ".csv")
  {
    var datasets := Candidates(search(SearchQuery(keywords)));
    if datasets == [] then Reply(NoDatasetsMessage)
    else
      var idx := ClampIndex(select(Summaries(datasets)), |datasets|);
      var package := datasets[idx];
      match ChooseResource(fetch(package.id))
      case None => Reply(NoCsvFileMessage(package))
      case Some(r) =>
        CsvResourceFields(r);
        var url := r.url.value;
        Synthesize(package, r, CsvContext(r.name, url, RowCount(download(url))))
  }

  /** The reply is "No datasets with CSV resources found." exactly when no
      search result has a CSV resource. */
  lemma ForwardNoDatasets(
    keywords: string,
    search: string -> seq<Package>,
    select: seq<string> -> int,
    fetch: string -> Package,
    download: string -> string)
    ensures Forward(keywords, search, select, fetch, download) == Reply(NoDatasetsMessage)
      <==> forall k :: 0 <= k < |search(SearchQuery(keywords))| ==> !HasCsvResource(search(SearchQuery(keywords))[k])
  {
    var datasets := Candidates(search(SearchQuery(keywords)));
    if datasets != [] {
      var idx := ClampIndex(select(Summaries(datasets)), |datasets|);
      MessagesDiffer(datasets[idx]);
    }
  }

  /** With candidates, the package used is the one at the selector's index
      when that is in range and the first candidate otherwise; the outcome
      is an answer from it or the "No suitable CSV data file" reply for it. */
  lemma ForwardUsesSelection(
    keywords: string,
    search: string -> seq<Package>,
    select: seq<string> -> int,
    fetch: string -> Package,
    download: string -> string)
    requires Candidates(search(SearchQuery(keywords))) != []
    ensures
      var datasets := Candidates(search(SearchQuery(keywords)));
      var b := select(Summaries(datasets));
      var p := datasets[if 0 <= b < |datasets| then b else 0];
      var o := Forward(keywords, search, select, fetch, download);
      && ((o.Synthesize? && o.package == p) || o == Reply(NoCsvFileMessage(p)))
      && (o.Synthesize? <==> HasCsvResource(fetch(p.id)))
  {
  }

  /** An answer is built from the first CSV resource of the chosen package's
      fetched details, with its name, URL and the row count of its download. */
  lemma ForwardAnswer(
    keywords: string,
    search: string -> seq<Package>,
    select: seq<string> -> int,
    fetch: string -> Package,
    download: string -> string)
    requires Forward(keywords, search, select, fetch, download).Synthesize?
    ensures
      var o := Forward(keywords, search, select, fetch, download);
      && o.package in Candidates(search(SearchQuery(keywords)))
      && ChooseResource(fetch(o.package.id)) == Some(o.resource)
      && o.context == CsvContext(o.resource.name, o.resource.url.value,
                                 RowCount(download(o.resource.url.value)))
  {
  }

  /** Any other reply names the selected candidate (the selector's index after
      clamping), whose fetched details have no CSV resource. */
  lemma ForwardNoCsvFile(
    keywords: string,
    search: string -> seq<Package>,
    select: seq<string> -> int,
    fetch: string -> Package,
    download: string -> string)
    requires
      var o := Forward(keywords, search, select, fetch, download);
      o.Reply? && o.text != NoDatasetsMessage
    ensures Candidates(search(SearchQuery(keywords))) != []
    ensures
      var datasets := Candidates(search(SearchQuery(keywords)));
      var p := datasets[ClampIndex(select(Summaries(datasets)), |datasets|)];
      && Forward(keywords, search, select, fetch, download) == Reply(NoCsvFileMessage(p))
      && !HasCsvResource(fetch(p.id))
  {
  }

  /** When no search result has a CSV resource, forward() stops before the
      selector, package_show and the download: what they would return makes
      no difference. */
  lemma ForwardStopsWithoutCandidates(
    keywords: string,
    search: string -> seq<Package>,
    select1: seq<string> -> int, fetch1: string -> Package, download1: string -> string,
    select2: seq<string> -> int, fetch2: string -> Package, download2: string -> string)
    requires forall k :: 0 <= k < |search(SearchQuery(keywords))| ==> !HasCsvResource(search(SearchQuery(keywords))[k])
    ensures Forward(keywords, search, select1, fetch1, download1) == Reply(NoDatasetsMessage)
    ensures Forward(keywords, search, select1, fetch1, download1) == Forward(keywords, search, select2, fetch2, download2)
  {
  }
}
