/** The blacklist updater script: download every third-party list, parse it
    into domains, merge the lists into one set, and render the sorted result
    as the `DISPOSABLE_DOMAINS` Set literal and as the reference data file. */
module UpdateBlacklist {
  import opened Wrappers
  import opened JsString
  import opened JsSort
  import opened OrderedSet
  import opened DomainLines
  import opened Json

  /** One entry of `DISPOSABLE_LISTS`. */
  datatype ListSource = ListSource(name: string, url: string, format: string)

  const DisposableLists: seq<ListSource> := [
    ListSource("disposable-domains-txt",
      "https://raw.githubusercontent.com/disposable/disposable/master/domains.txt", "txt"),
    ListSource("groundcat-list",
      "https://raw.githubusercontent.com/groundcat/disposable-email-domain-list/master/list.txt", "txt"),
    ListSource("stopforumspam-domains",
      "https://www.stopforumspam.com/downloads/toxic_domains_whole.txt", "txt")
  ]

  /** `JSON.parse`: the parsed value, or None when it throws. */
  type JsonParser = string -> Option<JsonValue>

  /** A download: the body, or the error the Promise rejects with. */
  type Downloader = string -> Result<string, string>

  /** The JSON branch's test: a string that contains a dot before it is
      lower-cased or trimmed. */
  predicate IsJsonCandidate(v: JsonValue) {
    v.JString? && '.' in v.s
  }

  /** `domain.toLowerCase().trim()` */
  function NormalizeJson(s: string): (d: string)
    ensures IsTrimmed(d) && |d| <= |s|
  {
    Trim(ToLower(s))
  }

  /** The strings of a JSON array that pass the test, normalised, in array
      order, repeats kept. */
  function JsonCandidates(items: seq<JsonValue>): (r: seq<string>)
    ensures |r| <= |items|
    decreases |items|
  {
    if items == [] then []
    else
      var v := items[|items| - 1];
      JsonCandidates(items[..|items| - 1]) + (if IsJsonCandidate(v) then [NormalizeJson(v.s)] else [])
  }

  /** What `parseDomains(content, format)` accepts, before the Set removes
      repeats: the filtered lines of a text list, the filtered strings of a
      JSON array, and nothing for an unknown format, for JSON that does not
      parse, or for JSON that is not an array. */
  function AcceptedDomains(content: string, format: string, jsonParse: JsonParser): (r: seq<string>)
    ensures format != "json" && format != "txt" ==> r == []
    ensures format == "json" && !(jsonParse(content).Some? && jsonParse(content).value.JArray?) ==> r == []
    ensures format == "txt" ==> forall d :: d in r ==> IsKept(d)
  {
    if format == "json" then
      match jsonParse(content)
      case Some(JArray(items)) => JsonCandidates(items)
      case _ => []
    else if format == "txt" then TextDomains(content)
    else []
  }

  /** What `parseDomains(content, format)` returns. */
  function ParsedDomains(content: string, format: string, jsonParse: JsonParser): (r: seq<string>)
    ensures NoDuplicates(r)
    ensures forall d :: d in r <==> d in AcceptedDomains(content, format, jsonParse)
  {
    Distinct(AcceptedDomains(content, format, jsonParse))
  }

  /** The JSON filter on one more element. */
  lemma JsonCandidatesStep(items: seq<JsonValue>, i: nat)
    requires i < |items|
    ensures JsonCandidates(items[..i + 1]) ==
            JsonCandidates(items[..i]) + (if IsJsonCandidate(items[i]) then [NormalizeJson(items[i].s)] else [])
  {
    assert items[..i + 1][..i] == items[..i];
  }

  /** The JSON branch of `parseDomains` on the parsed array: adds each
      accepted element to a Set. */
  method ParseJsonItems(items: seq<JsonValue>) returns (domains: seq<string>)
    ensures domains == Distinct(JsonCandidates(items))
  {
    domains := [];
    var i := 0;
    while i < |items|
      invariant 0 <= i <= |items|
      invariant domains == Distinct(JsonCandidates(items[..i]))
    {
      JsonCandidatesStep(items, i);
      var domain := items[i];
      if IsJsonCandidate(domain) {
        DistinctSnoc(JsonCandidates(items[..i]), NormalizeJson(domain.s));
        domains := Add(domains, NormalizeJson(domain.s));
      } else {
        assert JsonCandidates(items[..i + 1]) == JsonCandidates(items[..i]);
      }
      i := i + 1;
    }
    assert items[..i] == items;
  }

  /** One line of the text loop: a kept line is added to the set built from
      the lines before it, any other line changes nothing. */
  lemma DistinctFilterStep(lines: seq<string>, i: nat)
    requires i < |lines|
    ensures var d := NormalizeLine(lines[i]);
            Distinct(FilterLines(lines[..i + 1])) ==
            if IsKept(d) then Add(Distinct(FilterLines(lines[..i])), d) else Distinct(FilterLines(lines[..i]))
  {
    var d := NormalizeLine(lines[i]);
    var before := FilterLines(lines[..i]);
    FilterLinesStep(lines, i);
    if IsKept(d) {
      DistinctSnoc(before, d);
    } else {
      assert before + [] == before;
    }
  }

  /** The text branch of `parseDomains`: adds each accepted line to a Set. */
  method ParseTextLines(content: string) returns (domains: seq<string>)
    ensures domains == Distinct(TextDomains(content))
  {
    var lines := Split(content, '\n');
    domains := [];
    var i := 0;
    while i < |lines|
      invariant 0 <= i <= |lines|
      invariant domains == Distinct(FilterLines(lines[..i]))
    {
      DistinctFilterStep(lines, i);
      var domain := NormalizeLine(lines[i]);
      if IsKept(domain) {
        domains := Add(domains, domain);
      }
      i := i + 1;
    }
    assert lines[..i] == lines;
  }

  /** `parseDomains(content, format)`; an unknown format, a JSON text that
      does not parse, and JSON that is not an array all give no domains. */
  method ParseDomains(content: string, format: string, jsonParse: JsonParser)
    returns (domains: seq<string>)
    ensures domains == ParsedDomains(content, format, jsonParse)
    ensures NoDuplicates(domains)
    ensures format != "json" && format != "txt" ==> domains == []
    ensures format == "json" && !(jsonParse(content).Some? && jsonParse(content).value.JArray?) ==>
              domains == []
  {
    domains := [];
    if format == "json" {
      var parsed := jsonParse(content);
      if parsed.Some? && parsed.value.JArray? {
        domains := ParseJsonItems(parsed.value.items);
      }
    } else if format == "txt" {
      domains := ParseTextLines(content);
    }
  }

  lemma JsonBranch(content: string, jsonParse: JsonParser, items: seq<JsonValue>)
    requires jsonParse(content) == Some(JArray(items))
    ensures ParsedDomains(content, "json", jsonParse) == Distinct(JsonCandidates(items))
  {
  }

  lemma TextBranch(content: string, jsonParse: JsonParser)
    ensures ParsedDomains(content, "txt", jsonParse) == Distinct(FilterLines(Split(content, '\n')))
  {
  }

  /** Text format: every returned domain is non-empty, contains a dot, does
      not start with `#`, is trimmed and lower-case, and sits on one line. */
  lemma TextDomainsWellFormed(content: string, jsonParse: JsonParser)
    ensures forall d :: d in ParsedDomains(content, "txt", jsonParse) ==> IsListedDomain(d)
  {
    TextDomainsListed(content);
    assert AcceptedDomains(content, "txt", jsonParse) == TextDomains(content);
  }

  /** Text format: every line whose trimmed, lower-cased form passes the
      filter is among the returned domains. */
  lemma TextDomainsComplete(content: string, jsonParse: JsonParser, i: nat)
    requires i < |Split(content, '\n')| && IsKept(NormalizeLine(Split(content, '\n')[i]))
    ensures NormalizeLine(Split(content, '\n')[i]) in ParsedDomains(content, "txt", jsonParse)
  {
    var lines := Split(content, '\n');
    TextBranch(content, jsonParse);
    FilterLinesComplete(lines, i);
    DistinctKeeps(FilterLines(lines), NormalizeLine(lines[i]));
  }

  /** Any format: no domain is returned twice, and the domains come in the
      order of their first acceptance. */
  lemma ParsedInFirstAppearanceOrder(content: string, format: string, jsonParse: JsonParser)
    ensures NoDuplicates(ParsedDomains(content, format, jsonParse))
    ensures var accepted, r := AcceptedDomains(content, format, jsonParse), ParsedDomains(content, format, jsonParse);
            forall i, j :: 0 <= i < j < |r| ==> IndexOf(accepted, r[i]) < IndexOf(accepted, r[j])
  {
    DistinctKeepsFirstOccurrenceOrder(AcceptedDomains(content, format, jsonParse));
  }

  /** JSON format: every string element whose raw text has a dot is
      accepted, normalised. */
  lemma {:induction false} JsonCandidateKept(items: seq<JsonValue>, i: nat)
    requires i < |items| && IsJsonCandidate(items[i])
    ensures NormalizeJson(items[i].s) in JsonCandidates(items)
    decreases |items|
  {
    var init := items[..|items| - 1];
    if i < |init| {
      assert init[i] == items[i];
      JsonCandidateKept(init, i);
    } else {
      assert i == |items| - 1;
    }
  }

  /** JSON format: every accepted string is the normalised text of a string
      element that has a dot. */
  lemma {:induction false} JsonCandidateOrigin(items: seq<JsonValue>, d: string)
    requires d in JsonCandidates(items)
    ensures exists i :: 0 <= i < |items| && IsJsonCandidate(items[i]) && NormalizeJson(items[i].s) == d
    decreases |items|
  {
    var init := items[..|items| - 1];
    if d in JsonCandidates(init) {
      JsonCandidateOrigin(init, d);
      var i :| 0 <= i < |init| && IsJsonCandidate(init[i]) && NormalizeJson(init[i].s) == d;
      assert items[i] == init[i];
    } else {
      assert IsJsonCandidate(items[|items| - 1]) && NormalizeJson(items[|items| - 1].s) == d;
    }
  }

  /** A JSON domain is lower-case, trimmed and has a dot (so it is not
      empty); whether it starts with `#` is not tested. */
  lemma NormalizeJsonShape(s: string)
    requires '.' in s
    ensures var d := NormalizeJson(s); '.' in d && d != "" && IsTrimmed(d) && IsLowerCase(d)
  {
    var lower := ToLower(s);
    var d := Trim(lower);
    ToLowerKeepsNonLetters(s, '.');
    TrimKeepsContent(lower, '.');
    assert '.' in d && d != "" && IsTrimmed(d);
    TrimLowerCommute(s);
    assert d == ToLower(Trim(s));
  }

  /** JSON format: the returned domains are exactly the normalised string
      elements whose raw text has a dot, each of them lower-case, trimmed and
      non-empty. */
  lemma JsonDomainsExactly(content: string, jsonParse: JsonParser, items: seq<JsonValue>, d: string)
    requires jsonParse(content) == Some(JArray(items))
    ensures d in ParsedDomains(content, "json", jsonParse) <==>
            exists i :: 0 <= i < |items| && IsJsonCandidate(items[i]) && NormalizeJson(items[i].s) == d
    ensures d in ParsedDomains(content, "json", jsonParse) ==>
            '.' in d && d != "" && IsTrimmed(d) && IsLowerCase(d)
  {
    JsonBranch(content, jsonParse, items);
    if d in ParsedDomains(content, "json", jsonParse) {
      JsonCandidateOrigin(items, d);
      var i :| 0 <= i < |items| && IsJsonCandidate(items[i]) && NormalizeJson(items[i].s) == d;
      NormalizeJsonShape(items[i].s);
    }
    if exists i :: 0 <= i < |items| && IsJsonCandidate(items[i]) && NormalizeJson(items[i].s) == d {
      var i :| 0 <= i < |items| && IsJsonCandidate(items[i]) && NormalizeJson(items[i].s) == d;
      JsonCandidateKept(items, i);
    }
  }

  lemma LowerExample()
    ensures ToLower(" #A.b") == " #a.b"
  {
    var lower := ToLower(" #A.b");
    assert lower[0] == ' ' && lower[1] == '#' && lower[2] == 'a' && lower[3] == '.' && lower[4] == 'b';
  }

  lemma TrimExample()
    ensures Trim(" #a.b") == "#a.b"
  {
    var s: string := " #a.b";
    var t: string := "#a.b";
    assert IsWhitespace(s[0]) && s[1..] == t;
    assert !IsWhitespace(t[0]) && !IsWhitespace(t[|t| - 1]);
    assert TrimStart(t) == t;
    assert TrimStart(s) == t;
    assert TrimEnd(t) == t;
  }

  lemma NormalizeJsonExample()
    ensures NormalizeJson(" #A.b") == "#a.b"
  {
    LowerExample();
    TrimExample();
  }

  lemma JsonCandidatesExample(items: seq<JsonValue>)
    requires items == [JString(" #A.b"), JNumber(1.0), JString("c")]
    ensures JsonCandidates(items) == ["#a.b"]
  {
    NormalizeJsonExample();
    assert items[..2][..1] == [items[0]] && items[..2] == items[..|items| - 1];
    assert JsonCandidates([items[0]]) == JsonCandidates([]) + [NormalizeJson(" #A.b")];
  }

  /** Unlike the text branch, the JSON branch keeps an entry that starts
      with `#`, and lower-cases and trims what it keeps: a JSON text such as
      `[" #A.b", 1, "c"]` gives the one domain `#a.b`. */
  lemma JsonKeepsHashEntries(content: string, jsonParse: JsonParser)
    requires jsonParse(content) == Some(JArray([JString(" #A.b"), JNumber(1.0), JString("c")]))
    ensures ParsedDomains(content, "json", jsonParse) == ["#a.b"]
  {
    var items := [JString(" #A.b"), JNumber(1.0), JString("c")];
    JsonBranch(content, jsonParse, items);
    JsonCandidatesExample(items);
    DistinctOfNoDuplicates(["#a.b"]);
  }

  // ---------------------------------------------------------------------
  // Merging the lists

  /** The download of `list` resolved. */
  predicate Downloaded(list: ListSource, download: Downloader) {
    download(list.url).Success?
  }

  /** `parseDomains(content, list.format)` on the body of a resolved download. */
  function ListDomains(list: ListSource, download: Downloader, jsonParse: JsonParser): (r: seq<string>)
    requires Downloaded(list, download)
  {
    ParsedDomains(download(list.url).value, list.format, jsonParse)
  }

  /** What one pass of the loop adds for `list`: its parsed domains, or
      nothing when the download rejects. */
  function SourceDomains(list: ListSource, download: Downloader, jsonParse: JsonParser): (r: seq<string>) {
    if Downloaded(list, download) then ListDomains(list, download, jsonParse) else []
  }

  /** `f` applied to each element, in order. */
  function Each<T>(f: T -> seq<string>, xs: seq<T>): (r: seq<seq<string>>)
    ensures |r| == |xs|
    ensures forall k :: 0 <= k < |xs| ==> r[k] == f(xs[k])
    decreases |xs|
  {
    if xs == [] then [] else Each(f, xs[..|xs| - 1]) + [f(xs[|xs| - 1])]
  }

  lemma EachStep<T>(f: T -> seq<string>, xs: seq<T>, i: nat)
    requires i < |xs|
    ensures Each(f, xs[..i + 1]) == Each(f, xs[..i]) + [f(xs[i])]
  {
    assert xs[..i + 1][..i] == xs[..i];
  }

  lemma EachRemove<T>(f: T -> seq<string>, xs: seq<T>, k: nat)
    requires k < |xs|
    ensures Each(f, xs[..k] + xs[k + 1..]) == Each(f, xs)[..k] + Each(f, xs)[k + 1..]
  {
    var e := Each(f, xs);
    var left, right := xs[..k], xs[k + 1..];
    var rest := left + right;
    assert |rest| == |xs| - 1;
    var rs := Each(f, rest);
    var want := e[..k] + e[k + 1..];
    assert |rs| == |want| == |xs| - 1;
    forall j | 0 <= j < |rs| ensures rs[j] == want[j] {
      assert rs[j] == f(rest[j]);
      if j < k {
        assert rest[j] == xs[j] && want[j] == e[j] == f(xs[j]);
      } else {
        assert rest[j] == xs[j + 1] && want[j] == e[j + 1] == f(xs[j + 1]);
      }
    }
    assert rs == want;
  }

  function SourceStep(download: Downloader, jsonParse: JsonParser): (f: ListSource -> seq<string>) {
    list => SourceDomains(list, download, jsonParse)
  }

  /** What each source adds, in loop order. */
  function SourceResults(lists: seq<ListSource>, download: Downloader, jsonParse: JsonParser): (rs: seq<seq<string>>) {
    Each(SourceStep(download, jsonParse), lists)
  }

  /** The lists one after another. */
  function Flatten(xss: seq<seq<string>>): (r: seq<string>)
    decreases |xss|
  {
    if xss == [] then [] else Flatten(xss[..|xss| - 1]) + xss[|xss| - 1]
  }

  function SumOfLengths(xss: seq<seq<string>>): (n: nat)
    decreases |xss|
  {
    if xss == [] then 0 else SumOfLengths(xss[..|xss| - 1]) + |xss[|xss| - 1]|
  }

  /** `Array.from(allDomains)` after the loop: every domain of every parsed
      list added to one Set. */
  function MergedDomains(lists: seq<ListSource>, download: Downloader, jsonParse: JsonParser): (r: seq<string>)
    ensures NoDuplicates(r)
  {
    Distinct(Flatten(SourceResults(lists, download, jsonParse)))
  }

  /** `totalDownloaded` after the loop: the lengths of the parsed lists,
      which is the number of parsed domains with repeats across lists kept. */
  function TotalDownloaded(lists: seq<ListSource>, download: Downloader, jsonParse: JsonParser): (n: nat)
    ensures n == |Flatten(SourceResults(lists, download, jsonParse))|
  {
    FlattenLength(SourceResults(lists, download, jsonParse));
    SumOfLengths(SourceResults(lists, download, jsonParse))
  }

  lemma SourceResultsStep(lists: seq<ListSource>, download: Downloader, jsonParse: JsonParser, i: nat)
    requires i < |lists|
    ensures SourceResults(lists[..i + 1], download, jsonParse) ==
            SourceResults(lists[..i], download, jsonParse) + [SourceDomains(lists[i], download, jsonParse)]
  {
    EachStep(SourceStep(download, jsonParse), lists, i);
  }

  lemma FlattenSnoc(xss: seq<seq<string>>, ys: seq<string>)
    ensures Flatten(xss + [ys]) == Flatten(xss) + ys
    ensures SumOfLengths(xss + [ys]) == SumOfLengths(xss) + |ys|
  {
    assert (xss + [ys])[..|xss|] == xss;
  }

  lemma {:induction false} FlattenAppend(a: seq<seq<string>>, b: seq<seq<string>>)
    ensures Flatten(a + b) == Flatten(a) + Flatten(b)
    ensures SumOfLengths(a + b) == SumOfLengths(a) + SumOfLengths(b)
    decreases |b|
  {
    if b == [] {
      assert a + b == a;
    } else {
      var init, last := b[..|b| - 1], b[|b| - 1];
      FlattenAppend(a, init);
      assert b == init + [last];
      assert a + b == (a + init) + [last];
      FlattenSnoc(a + init, last);
      FlattenSnoc(init, last);
    }
  }

  lemma {:induction false} FlattenLength(xss: seq<seq<string>>)
    ensures |Flatten(xss)| == SumOfLengths(xss)
    decreases |xss|
  {
    if xss != [] {
      FlattenLength(xss[..|xss| - 1]);
    }
  }

  /** A value is in the concatenation exactly when it is in one of the
      lists. */
  lemma {:induction false} FlattenMembers(xss: seq<seq<string>>, d: string)
    ensures d in Flatten(xss) <==> exists k :: 0 <= k < |xss| && d in xss[k]
    decreases |xss|
  {
    if xss != [] {
      var init := xss[..|xss| - 1];
      FlattenMembers(init, d);
      if d in Flatten(init) {
        var k :| 0 <= k < |init| && d in init[k];
        assert xss[k] == init[k];
      }
      if exists k :: 0 <= k < |xss| && d in xss[k] {
        var k :| 0 <= k < |xss| && d in xss[k];
        if k < |init| {
          assert init[k] == xss[k];
        }
      }
    }
  }

  /** The merged set is exactly the union of the lists whose download
      resolved, and it holds no domain twice. */
  lemma MergedIsUnion(lists: seq<ListSource>, download: Downloader, jsonParse: JsonParser, d: string)
    ensures d in MergedDomains(lists, download, jsonParse) <==>
            exists k :: 0 <= k < |lists| && Downloaded(lists[k], download) && d in ListDomains(lists[k], download, jsonParse)
    ensures NoDuplicates(MergedDomains(lists, download, jsonParse))
  {
    var xss := SourceResults(lists, download, jsonParse);
    FlattenMembers(xss, d);
    if d in Flatten(xss) {
      var k :| 0 <= k < |xss| && d in xss[k];
      assert Downloaded(lists[k], download) && d in ListDomains(lists[k], download, jsonParse);
    }
    if exists k :: 0 <= k < |lists| && Downloaded(lists[k], download) && d in ListDomains(lists[k], download, jsonParse) {
      var k :| 0 <= k < |lists| && Downloaded(lists[k], download) && d in ListDomains(lists[k], download, jsonParse);
      assert d in xss[k];
    }
  }

  /** Inserting an empty list changes neither the concatenation nor the
      total length. */
  lemma FlattenSkipsEmpty(left: seq<seq<string>>, right: seq<seq<string>>)
    ensures Flatten(left + [[]] + right) == Flatten(left + right)
    ensures SumOfLengths(left + [[]] + right) == SumOfLengths(left + right)
  {
    FlattenAppend(left + [[]], right);
    FlattenSnoc(left, []);
    assert Flatten(left) + [] == Flatten(left);
    FlattenAppend(left, right);
  }

  /** An element that `f` maps to nothing can be dropped from `xs` without
      changing the concatenation or the total length. */
  lemma EmptyImageDropped<T>(f: T -> seq<string>, xs: seq<T>, k: nat)
    requires k < |xs| && f(xs[k]) == []
    ensures var rest := xs[..k] + xs[k + 1..];
            Flatten(Each(f, xs)) == Flatten(Each(f, rest)) &&
            SumOfLengths(Each(f, xs)) == SumOfLengths(Each(f, rest))
  {
    var xss := Each(f, xs);
    var left, right := xss[..k], xss[k + 1..];
    EachRemove(f, xs, k);
    assert xss == left + [[]] + right;
    FlattenSkipsEmpty(left, right);
  }

  /** A source whose download rejects contributes nothing and does not stop
      the loop: the outcome is that of the loop without it. */
  lemma FailedSourceIgnored(lists: seq<ListSource>, download: Downloader, jsonParse: JsonParser, k: nat)
    requires k < |lists| && !Downloaded(lists[k], download)
    ensures var rest := lists[..k] + lists[k + 1..];
            MergedDomains(lists, download, jsonParse) == MergedDomains(rest, download, jsonParse) &&
            TotalDownloaded(lists, download, jsonParse) == TotalDownloaded(rest, download, jsonParse)
  {
    var f := SourceStep(download, jsonParse);
    assert f(lists[k]) == SourceDomains(lists[k], download, jsonParse) == [];
    EmptyImageDropped(f, lists, k);
  }

  /** The total counts every parsed list in full, so it is at least the
      number of distinct domains. */
  lemma TotalBoundsUnique(lists: seq<ListSource>, download: Downloader, jsonParse: JsonParser)
    ensures |MergedDomains(lists, download, jsonParse)| <= TotalDownloaded(lists, download, jsonParse)
  {
    FlattenLength(SourceResults(lists, download, jsonParse));
  }

  /** When every source is a text list, every merged domain is a
      well-formed listed domain. */
  lemma MergedTextListed(lists: seq<ListSource>, download: Downloader, jsonParse: JsonParser, d: string)
    requires forall k :: 0 <= k < |lists| ==> lists[k].format == "txt"
    requires d in MergedDomains(lists, download, jsonParse)
    ensures IsListedDomain(d)
  {
    MergedIsUnion(lists, download, jsonParse, d);
    var k :| 0 <= k < |lists| && Downloaded(lists[k], download) && d in ListDomains(lists[k], download, jsonParse);
    var content := download(lists[k].url).value;
    assert ListDomains(lists[k], download, jsonParse) == ParsedDomains(content, "txt", jsonParse);
    TextDomainsWellFormed(content, jsonParse);
  }

  /** All three configured sources are text lists, so `MergedTextListed`
      applies to `updateBlacklist`. */
  lemma ConfiguredListsAreText()
    ensures forall k :: 0 <= k < |DisposableLists| ==> DisposableLists[k].format == "txt"
  {
  }

  // ---------------------------------------------------------------------
  // Rendering

  const SetOpen: string := "const DISPOSABLE_DOMAINS = new Set(["
  const SetClose: string := "]);"

  /** One entry of the Set literal: two spaces and the domain in single quotes. */
  function Quote(d: string): (q: string)
    ensures |q| == |d| + 4 && q[..3] == "  '" && q[3..|q| - 1] == d && q[|q| - 1] == '\''
  {
    "  '" + d + "'"
  }

  function Quoted(ds: seq<string>): (r: seq<string>)
    ensures |r| == |ds|
    ensures forall i :: 0 <= i < |ds| ==> r[i] == Quote(ds[i])
    decreases |ds|
  {
    if ds == [] then [] else [Quote(ds[0])] + Quoted(ds[1..])
  }

  /** The `DISPOSABLE_DOMAINS` definition that replaces the old one. */
  function SetLiteral(ds: seq<string>): (r: string)
    ensures |SetOpen| + |SetClose| <= |r|
    ensures r[..|SetOpen|] == SetOpen && r[|r| - |SetClose|..] == SetClose
  {
    SetOpen + "\n" + Join(Quoted(ds), ",\n") + "\n" + SetClose
  }

  /** Every line but the last followed by a comma. */
  function WithCommas(xs: seq<string>): (r: seq<string>)
    ensures |r| == |xs|
    decreases |xs|
  {
    if |xs| <= 1 then xs else [xs[0] + ","] + WithCommas(xs[1..])
  }

  /** One line of the Set literal body for the `i`-th domain. */
  function EntryLine(ds: seq<string>, i: nat): (line: string)
    requires i < |ds|
  {
    Quote(ds[i]) + (if i < |ds| - 1 then "," else "")
  }

  lemma {:induction false} WithCommasAt(xs: seq<string>, i: nat)
    requires i < |xs|
    ensures WithCommas(xs)[i] == xs[i] + (if i < |xs| - 1 then "," else "")
    decreases |xs|
  {
    if |xs| > 1 && i > 0 {
      WithCommasAt(xs[1..], i - 1);
    }
  }

  lemma {:induction false} JoinWithCommas(xs: seq<string>)
    ensures Join(xs, ",\n") == Join(WithCommas(xs), "\n")
    decreases |xs|
  {
    if |xs| > 1 {
      JoinWithCommas(xs[1..]);
      var rest := WithCommas(xs[1..]);
      assert ([xs[0] + ","] + rest)[1..] == rest;
      assert xs[0] + ",\n" + Join(xs[1..], ",\n") == (xs[0] + ",") + "\n" + Join(rest, "\n");
    }
  }

  /** The `i`-th body line is the entry line of the `i`-th domain, and it
      holds no line break when the domain holds none. */
  lemma BodyLineAt(ds: seq<string>, i: nat)
    requires i < |ds| && '\n' !in ds[i]
    ensures WithCommas(Quoted(ds))[i] == EntryLine(ds, i) && '\n' !in EntryLine(ds, i)
  {
    var q := Quoted(ds);
    WithCommasAt(q, i);
    assert q[i] == Quote(ds[i]);
    QuoteOneLine(ds[i]);
  }

  /** Quoting adds no line break, and neither does the comma after it. */
  lemma QuoteOneLine(d: string)
    requires '\n' !in d
    ensures '\n' !in Quote(d) && '\n' !in Quote(d) + ","
  {
    var q := Quote(d);
    assert q == "  '" + d + "'";
    forall k | 0 <= k < |q| ensures q[k] != '\n' {
      if 3 <= k < |q| - 1 {
        assert q[k] == d[k - 3];
      }
    }
    var c := q + ",";
    forall k | 0 <= k < |c| ensures c[k] != '\n' {
      if k < |q| {
        assert c[k] == q[k];
      }
    }
  }

  /** The rendered literal, split into lines: the opening line, one line per
      domain in order (each but the last ending in a comma), and the closing
      line. */
  lemma SetLiteralLines(ds: seq<string>)
    requires ds != []
    requires forall i :: 0 <= i < |ds| ==> '\n' !in ds[i]
    ensures var lines := Split(SetLiteral(ds), '\n');
            |lines| == |ds| + 2 && lines[0] == SetOpen && lines[|lines| - 1] == SetClose &&
            forall i :: 0 <= i < |ds| ==> lines[i + 1] == EntryLine(ds, i)
  {
    var q := Quoted(ds);
    var w := WithCommas(q);
    JoinWithCommas(q);
    forall i | 0 <= i < |w| ensures '\n' !in w[i] && w[i] == EntryLine(ds, i) {
      BodyLineAt(ds, i);
    }
    assert SetLiteral(ds) == SetOpen + "\n" + Join(w, "\n") + "\n" + SetClose;
    SplitFramed(SetOpen, w, SetClose);
  }

  /** Lines without a break, joined and framed by the opening and closing
      lines, split back into the frame and the lines. */
  lemma SplitJoinedThenLine(w: seq<string>, close: string)
    requires '\n' !in close && w != []
    requires forall i :: 0 <= i < |w| ==> '\n' !in w[i]
    ensures Split(Join(w, "\n") + "\n" + close, '\n') == w + [close]
  {
    SplitWithoutSeparator(close, '\n');
    SplitJoinThen(w, '\n', close);
  }

  lemma SplitFramed(open: string, w: seq<string>, close: string)
    requires '\n' !in open && '\n' !in close && w != []
    requires forall i :: 0 <= i < |w| ==> '\n' !in w[i]
    ensures Split(open + "\n" + Join(w, "\n") + "\n" + close, '\n') == [open] + w + [close]
  {
    var tail := Join(w, "\n") + "\n" + close;
    SplitJoinedThenLine(w, close);
    var text := open + "\n" + Join(w, "\n") + "\n" + close;
    assert text == open + ['\n'] + tail;
    SplitAfterPiece(open, '\n', tail);
    assert Split(text, '\n') == [open] + (w + [close]);
    assert [open] + (w + [close]) == [open] + w + [close];
  }

  /** Reads the domain back from one line of the literal body. */
  function EntryDomain(line: string): (d: Option<string>) {
    var body := if |line| > 0 && line[|line| - 1] == ',' then line[..|line| - 1] else line;
    if |body| >= 4 && body[..3] == "  '" && body[|body| - 1] == '\'' then Some(body[3..|body| - 1])
    else None
  }

  lemma EntryDomainOfEntryLine(ds: seq<string>, i: nat)
    requires i < |ds|
    ensures EntryDomain(EntryLine(ds, i)) == Some(ds[i])
  {
    var q := Quote(ds[i]);
    assert q[..3] == "  '" && q[3..|q| - 1] == ds[i] && q[|q| - 1] == '\'';
    var line := EntryLine(ds, i);
    if i < |ds| - 1 {
      assert line == q + "," && line[|line| - 1] == ',' && line[..|line| - 1] == q;
    } else {
      assert line == q;
    }
  }

  /** Reads back the domains of a rendered literal: the lines between the
      first and the last, each with its trailing comma and its quotes
      stripped. Quotes inside a domain are not treated specially, just as
      the rendering does not escape them. */
  function ReadSetLiteral(text: string): (ds: Option<seq<string>>) {
    var lines := Split(text, '\n');
    if |lines| >= 3 && lines[0] == SetOpen && lines[|lines| - 1] == SetClose then
      EntryDomains(lines[1..|lines| - 1])
    else None
  }

  function EntryDomains(lines: seq<string>): (ds: Option<seq<string>>)
    decreases |lines|
  {
    if lines == [] then Some([])
    else
      match (EntryDomain(lines[0]), EntryDomains(lines[1..]))
      case (Some(d), Some(ds)) => Some([d] + ds)
      case _ => None
  }

  lemma {:induction false} EntryDomainsAt(lines: seq<string>, ds: seq<string>)
    requires |lines| == |ds|
    requires forall i :: 0 <= i < |lines| ==> EntryDomain(lines[i]) == Some(ds[i])
    ensures EntryDomains(lines) == Some(ds)
    decreases |lines|
  {
    if lines != [] {
      EntryDomainsAt(lines[1..], ds[1..]);
      assert [ds[0]] + ds[1..] == ds;
    }
  }

  /** Reading the rendered literal back with `ReadSetLiteral` returns the
      given domains, in the given order. */
  lemma SetLiteralRoundTrip(ds: seq<string>)
    requires ds != []
    requires forall i :: 0 <= i < |ds| ==> '\n' !in ds[i]
    ensures ReadSetLiteral(SetLiteral(ds)) == Some(ds)
  {
    SetLiteralLines(ds);
    var lines := Split(SetLiteral(ds), '\n');
    var body := lines[1..|lines| - 1];
    forall i | 0 <= i < |body| ensures EntryDomain(body[i]) == Some(ds[i]) {
      EntryDomainOfEntryLine(ds, i);
    }
    EntryDomainsAt(body, ds);
  }

  /** The record written to the reference data file. */
  datatype DomainsFile = DomainsFile(domains: seq<string>, count: nat, lastUpdated: string, sources: seq<string>)

  /** `DISPOSABLE_LISTS.map(list => list.name)` */
  function SourceNames(lists: seq<ListSource>): (r: seq<string>)
    ensures |r| == |lists|
    ensures forall i :: 0 <= i < |lists| ==> r[i] == lists[i].name
    decreases |lists|
  {
    if lists == [] then [] else [lists[0].name] + SourceNames(lists[1..])
  }

  lemma ConfiguredSourceNames()
    ensures SourceNames(DisposableLists) == ["disposable-domains-txt", "groundcat-list", "stopforumspam-domains"]
  {
  }

  /** `updateEmailValidator(domains)`: sorts the array in place and renders
      the new `DISPOSABLE_DOMAINS` definition. */
  method UpdateEmailValidator(domains: array<string>) returns (setLiteral: string)
    modifies domains
    ensures Sorted(domains[..]) && multiset(domains[..]) == multiset(old(domains[..]))
    ensures setLiteral == SetLiteral(domains[..])
  {
    SortInPlace(domains);
    setLiteral := SetLiteral(domains[..]);
  }

  /** `saveDomainsToFile(domains)`: sorts the array in place and builds the
      record; the timestamp is a parameter. */
  method SaveDomainsToFile(domains: array<string>, lastUpdated: string) returns (file: DomainsFile)
    modifies domains
    ensures Sorted(domains[..]) && multiset(domains[..]) == multiset(old(domains[..]))
    ensures file == DomainsFile(domains[..], domains.Length, lastUpdated, SourceNames(DisposableLists))
  {
    SortInPlace(domains);
    file := DomainsFile(domains[..], domains.Length, lastUpdated, SourceNames(DisposableLists));
  }

  /** What `updateBlacklist` writes when the union is not empty. */
  datatype Written = Written(setLiteral: string, file: DomainsFile)

  /** The totals `updateBlacklist` reports and what it writes. */
  datatype UpdateSummary = UpdateSummary(totalDownloaded: nat, uniqueCount: nat, written: Option<Written>)

  /** The loop of `updateBlacklist` over the configured lists: the Set of all
      parsed domains and the running total. */
  method MergeLists(download: Downloader, jsonParse: JsonParser)
    returns (allDomains: seq<string>, totalDownloaded: nat)
    ensures allDomains == MergedDomains(DisposableLists, download, jsonParse)
    ensures totalDownloaded == TotalDownloaded(DisposableLists, download, jsonParse)
  {
    allDomains := [];
    totalDownloaded := 0;
    for i := 0 to |DisposableLists|
      invariant allDomains == Distinct(Flatten(SourceResults(DisposableLists[..i], download, jsonParse)))
      invariant totalDownloaded == SumOfLengths(SourceResults(DisposableLists[..i], download, jsonParse))
    {
      var list := DisposableLists[i];
      SourceResultsStep(DisposableLists, download, jsonParse, i);
      var before := SourceResults(DisposableLists[..i], download, jsonParse);
      var response := download(list.url);
      if response.Success? {
        var domains := ParseDomains(response.value, list.format, jsonParse);
        allDomains := AddAll(allDomains, Flatten(before), domains);
        FlattenSnoc(before, domains);
        totalDownloaded := totalDownloaded + |domains|;
      } else {
        FlattenSnoc(before, []);
        assert Flatten(before) + [] == Flatten(before);
      }
    }
    assert DisposableLists[..|DisposableLists|] == DisposableLists;
  }

  /** The two writes of `updateBlacklist` for a non-empty union: both sort the
      same array, so the data file lists the domains in the order of the
      literal. */
  method WriteOutputs(uniqueDomains: seq<string>, lastUpdated: string) returns (w: Written)
    requires NoDuplicates(uniqueDomains)
    ensures StrictlySorted(w.file.domains) && multiset(w.file.domains) == multiset(uniqueDomains)
    ensures w.setLiteral == SetLiteral(w.file.domains)
    ensures w.file.count == |uniqueDomains| && w.file.lastUpdated == lastUpdated
    ensures w.file.sources == SourceNames(DisposableLists)
  {
    var a := new string[|uniqueDomains|](k requires 0 <= k < |uniqueDomains| => uniqueDomains[k]);
    assert a[..] == uniqueDomains;
    var setLiteral := UpdateEmailValidator(a);
    var rendered := a[..];
    var file := SaveDomainsToFile(a, lastUpdated);
    SortedUnique(rendered, a[..]);
    NoDuplicatesPermutation(uniqueDomains, a[..]);
    SortedDistinct(a[..]);
    w := Written(setLiteral, file);
  }

  /** `updateBlacklist()`: downloads and parses every configured list, adds
      every domain to one Set, and, unless the Set is empty, renders the
      sorted domains as the Set literal and the data file. */
  method UpdateBlacklist(download: Downloader, jsonParse: JsonParser, lastUpdated: string)
    returns (summary: UpdateSummary)
    ensures summary.totalDownloaded == TotalDownloaded(DisposableLists, download, jsonParse)
    ensures summary.uniqueCount == |MergedDomains(DisposableLists, download, jsonParse)|
    ensures summary.written.None? <==> MergedDomains(DisposableLists, download, jsonParse) == []
    ensures summary.written.Some? ==>
              var merged, w := MergedDomains(DisposableLists, download, jsonParse), summary.written.value;
              StrictlySorted(w.file.domains) && multiset(w.file.domains) == multiset(merged) &&
              w.setLiteral == SetLiteral(w.file.domains) &&
              w.file.count == |merged| && w.file.lastUpdated == lastUpdated &&
              w.file.sources == SourceNames(DisposableLists)
  {
    var uniqueDomains, totalDownloaded := MergeLists(download, jsonParse);
    if |uniqueDomains| > 0 {
      var w := WriteOutputs(uniqueDomains, lastUpdated);
      summary := UpdateSummary(totalDownloaded, |uniqueDomains|, Some(w));
    } else {
      summary := UpdateSummary(totalDownloaded, |uniqueDomains|, None);
    }
  }
}
