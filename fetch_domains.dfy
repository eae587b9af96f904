/** The simpler fetch-and-save script: download two text lists, keep the
    lines that pass the filter, add them all to one Set, sort it and write
    the domains one per line. */
module FetchDomains {
  import opened Wrappers
  import opened JsString
  import opened JsSort
  import opened OrderedSet
  import opened DomainLines
  import UpdateBlacklist

  const Urls: seq<string> := [
    "https://raw.githubusercontent.com/disposable/disposable/master/domains.txt",
    "https://raw.githubusercontent.com/groundcat/disposable-email-domain-list/master/list.txt"
  ]

  /** What the loop reports for one URL. */
  datatype FetchLog =
    | Added(count: nat)                        // `Added ${domains.length} domains`
    | FetchFailed(url: string, message: string) // `Failed to fetch ${url}: ${error.message}`

  /** The report for one URL: the number of lines its filter keeps, repeats
      included, or the failure. */
  function LogEntry(url: string, download: UpdateBlacklist.Downloader): (e: FetchLog)
    ensures e.Added? <==> download(url).Success?
    ensures e.Added? ==> e.count == |KeptLines(url, download)|
    ensures e.FetchFailed? ==> e.url == url && e.message == download(url).error
  {
    match download(url)
    case Success(content) => Added(|TextDomains(content)|)
    case Failure(message) => FetchFailed(url, message)
  }

  /** The lines the filter keeps from the body of `url`, repeats kept;
      nothing when the download rejects. */
  function KeptLines(url: string, download: UpdateBlacklist.Downloader): (r: seq<string>)
    ensures download(url).Failure? ==> r == []
    ensures forall d :: d in r ==> IsKept(d)
  {
    match download(url)
    case Success(content) => TextDomains(content)
    case Failure(_) => []
  }

  function KeptStep(download: UpdateBlacklist.Downloader): (f: string -> seq<string>) {
    url => KeptLines(url, download)
  }

  /** The kept lines of each URL, in order. */
  function KeptLists(urls: seq<string>, download: UpdateBlacklist.Downloader): (rs: seq<seq<string>>) {
    UpdateBlacklist.Each(KeptStep(download), urls)
  }

  /** The filtered lines of every URL whose download resolved, one list
      after the other, repeats kept. */
  function FetchedLines(urls: seq<string>, download: UpdateBlacklist.Downloader): (r: seq<string>) {
    UpdateBlacklist.Flatten(KeptLists(urls, download))
  }

  /** The outcome of `fetchDomains()`: the log lines, the sorted domains, the
      text written to `disposable-domains.txt`, and the final count. */
  datatype FetchResult = FetchResult(log: seq<FetchLog>, saved: seq<string>, text: string, savedCount: nat)

  lemma FetchedLinesStep(urls: seq<string>, download: UpdateBlacklist.Downloader, i: nat)
    requires i < |urls|
    ensures FetchedLines(urls[..i + 1], download) ==
            FetchedLines(urls[..i], download) + KeptLines(urls[i], download)
  {
    UpdateBlacklist.EachStep(KeptStep(download), urls, i);
    UpdateBlacklist.FlattenSnoc(KeptLists(urls[..i], download), KeptLines(urls[i], download));
  }

  /** The loop of `fetchDomains()` over the URLs: the Set of every kept
      line and the report for each URL. */
  method CollectDomains(download: UpdateBlacklist.Downloader) returns (allDomains: seq<string>, log: seq<FetchLog>)
    ensures allDomains == Distinct(FetchedLines(Urls, download))
    ensures |log| == |Urls| && forall k :: 0 <= k < |Urls| ==> log[k] == LogEntry(Urls[k], download)
  {
    allDomains := [];
    log := [];
    for i := 0 to |Urls|
      invariant allDomains == Distinct(FetchedLines(Urls[..i], download))
      invariant |log| == i && forall k :: 0 <= k < i ==> log[k] == LogEntry(Urls[k], download)
    {
      var url := Urls[i];
      FetchedLinesStep(Urls, download, i);
      var response := download(url);
      if response.Success? {
        var domains := TextDomains(response.value);
        assert domains == KeptLines(url, download);
        allDomains := AddAll(allDomains, FetchedLines(Urls[..i], download), domains);
        log := log + [Added(|domains|)];
      } else {
        assert KeptLines(url, download) == [];
        assert FetchedLines(Urls[..i + 1], download) == FetchedLines(Urls[..i], download);
        log := log + [FetchFailed(url, response.error)];
      }
    }
    assert Urls[..|Urls|] == Urls;
  }

  /** `Array.from(allDomains).sort()`: the values of the Set in ascending
      order, each once. */
  method SortSet(allDomains: seq<string>) returns (sorted: seq<string>)
    requires NoDuplicates(allDomains)
    ensures StrictlySorted(sorted) && multiset(sorted) == multiset(allDomains)
  {
    var a := new string[|allDomains|](k requires 0 <= k < |allDomains| => allDomains[k]);
    assert a[..] == allDomains;
    SortInPlace(a);
    NoDuplicatesPermutation(allDomains, a[..]);
    SortedDistinct(a[..]);
    sorted := a[..];
  }

  /** `fetchDomains()`, with the downloads as a parameter and the file write
      returned as text. */
  method FetchDomains(download: UpdateBlacklist.Downloader) returns (result: FetchResult)
    ensures |result.log| == |Urls|
    ensures forall k :: 0 <= k < |Urls| ==> result.log[k] == LogEntry(Urls[k], download)
    ensures StrictlySorted(result.saved)
    ensures multiset(result.saved) == multiset(Distinct(FetchedLines(Urls, download)))
    ensures result.text == Join(result.saved, "\n")
    ensures result.savedCount == |result.saved|
  {
    var allDomains, log := CollectDomains(download);
    var sortedDomains := SortSet(allDomains);
    result := FetchResult(log, sortedDomains, Join(sortedDomains, "\n"), |sortedDomains|);
  }

  /** The saved domains are exactly the union of the filtered lines of the
      URLs whose download resolved; a failed URL adds nothing. */
  lemma SavedIsUnion(download: UpdateBlacklist.Downloader, saved: seq<string>, d: string)
    requires multiset(saved) == multiset(Distinct(FetchedLines(Urls, download)))
    ensures d in saved <==> exists k :: 0 <= k < |Urls| && d in KeptLines(Urls[k], download)
  {
    assert d in saved <==> d in multiset(saved);
    var xss := KeptLists(Urls, download);
    UpdateBlacklist.FlattenMembers(xss, d);
    if exists k :: 0 <= k < |xss| && d in xss[k] {
      var k :| 0 <= k < |xss| && d in xss[k];
      assert d in KeptLines(Urls[k], download);
    }
    if exists k :: 0 <= k < |Urls| && d in KeptLines(Urls[k], download) {
      var k :| 0 <= k < |Urls| && d in KeptLines(Urls[k], download);
      assert d in xss[k];
    }
  }

  /** Every saved domain is non-empty, has a dot, does not start with `#`, is
      trimmed and lower-case and has no line break. */
  lemma SavedListed(download: UpdateBlacklist.Downloader, saved: seq<string>)
    requires multiset(saved) == multiset(Distinct(FetchedLines(Urls, download)))
    ensures forall i :: 0 <= i < |saved| ==> IsListedDomain(saved[i])
  {
    forall i | 0 <= i < |saved| ensures IsListedDomain(saved[i]) {
      SavedIsUnion(download, saved, saved[i]);
      var k :| 0 <= k < |Urls| && saved[i] in KeptLines(Urls[k], download);
      if download(Urls[k]).Success? {
        TextDomainsListed(download(Urls[k]).value);
      }
    }
  }

  /** Reading the written file through the same split, normalise and filter
      gives back the saved domains, in order; parsing it as a text list in
      the other script gives the same sequence. */
  lemma SavedTextRoundTrip(saved: seq<string>, jsonParse: UpdateBlacklist.JsonParser)
    requires StrictlySorted(saved)
    requires forall i :: 0 <= i < |saved| ==> IsListedDomain(saved[i])
    ensures TextDomains(Join(saved, "\n")) == saved
    ensures UpdateBlacklist.ParsedDomains(Join(saved, "\n"), "txt", jsonParse) == saved
  {
    var text := Join(saved, "\n");
    TextRoundTrip(saved);
    assert FilterLines(Split(text, '\n')) == saved;
    DistinctOfNoDuplicates(saved);
    UpdateBlacklist.TextBranch(text, jsonParse);
  }

  /** The written text does not end with a line break (nor does it start
      with one). */
  lemma {:induction false} NoTrailingNewline(saved: seq<string>)
    requires forall i :: 0 <= i < |saved| ==> IsListedDomain(saved[i])
    ensures var text := Join(saved, "\n");
            text == [] || (text[0] != '\n' && text[|text| - 1] != '\n')
    decreases |saved|
  {
    if |saved| > 1 {
      NoTrailingNewline(saved[1..]);
      var rest := Join(saved[1..], "\n");
      assert Join(saved, "\n") == saved[0] + "\n" + rest;
      assert saved[0][0] != '\n';
    } else if |saved| == 1 {
      assert saved[0][0] != '\n';
    }
  }

  /** The count logged for a resolved download is the number of its lines
      that pass the filter, repeated domains included. */
  lemma LogCountsKeptLines(url: string, download: UpdateBlacklist.Downloader, content: string)
    requires download(url) == Success(content)
    ensures LogEntry(url, download) == Added(|KeptIndices(Split(content, '\n'))|)
  {
    FilterLinesCount(Split(content, '\n'));
  }

  lemma RepeatedLineTrim()
    ensures NormalizeLine("a.b") == "a.b"
  {
    assert TrimStart("a.b") == "a.b";
    assert TrimEnd("a.b") == "a.b";
    assert ToLower("a.b") == "a.b" by {
      var lower := ToLower("a.b");
      assert lower[0] == 'a' && lower[1] == '.' && lower[2] == 'b';
    }
  }

  lemma RepeatedLineSplit()
    ensures Split("a.b\na.b", '\n') == ["a.b", "a.b"]
  {
    SplitJoin(["a.b", "a.b"], '\n');
    assert Join(["a.b", "a.b"], "\n") == "a.b\na.b";
  }

  /** The per-URL count does not remove repeats: a list holding the same
      domain twice reports two domains added, while the Set gains one. */
  lemma PerUrlCountKeepsRepeats()
    ensures TextDomains("a.b\na.b") == ["a.b", "a.b"]
    ensures Distinct(TextDomains("a.b\na.b")) == ["a.b"]
  {
    RepeatedLineSplit();
    RepeatedLineTrim();
    var lines := ["a.b", "a.b"];
    assert lines[..1] == ["a.b"] && lines[..1][..0] == [];
    assert FilterLines(lines[..1]) == ["a.b"];
    assert FilterLines(lines) == ["a.b", "a.b"];
  }
}
