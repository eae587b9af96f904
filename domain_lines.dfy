/** The line filter both list scripts apply to a downloaded text list:
    trim and lower-case each line, then keep it when it is non-empty,
    contains a dot and does not start with `#`. */
module DomainLines {
  import opened JsString
  import opened OrderedSet

  /** `line.trim().toLowerCase()` */
  function NormalizeLine(line: string): (d: string)
    ensures |d| <= |line| && IsLowerCase(d)
  {
    ToLower(Trim(line))
  }

  /** `d && d.includes('.') && !d.startsWith('#')` */
  predicate IsKept(d: string) {
    d != "" && '.' in d && d[0] != '#'
  }

  /** The emptiness test of the filter is implied by the dot test: a string
      is kept exactly when it has a dot and does not start with `#`. */
  lemma KeptTest(d: string)
    ensures IsKept(d) <==> '.' in d && !("#" <= d)
  {
    if '.' in d {
      assert d != "";
      assert "#" <= d <==> d[0] == '#';
    }
  }

  /** A domain as the scripts store it: kept by the filter, already trimmed
      and lower-case, and on one line. */
  predicate IsListedDomain(d: string) {
    IsKept(d) && IsTrimmed(d) && IsLowerCase(d) && '\n' !in d
  }

  /** A normalised line is trimmed and lower-case. */
  lemma NormalizeLineShape(line: string)
    ensures IsTrimmed(NormalizeLine(line)) && IsLowerCase(NormalizeLine(line))
  {
    var t := Trim(line);
    var d := ToLower(t);
    assert d == NormalizeLine(line) && IsLowerCase(d);
    if t != [] {
      assert d[0] == LowerChar(t[0]) && d[|d| - 1] == LowerChar(t[|t| - 1]);
      LowerCharWhitespace(t[0]);
      LowerCharWhitespace(t[|t| - 1]);
      assert !IsWhitespace(d[0]) && !IsWhitespace(d[|d| - 1]);
    }
  }

  /** `lines.map(normalise).filter(keep)`, keeping repeated lines repeated. */
  function FilterLines(lines: seq<string>): (r: seq<string>)
    ensures |r| <= |lines|
    ensures forall d :: d in r ==> IsKept(d)
    decreases |lines|
  {
    if lines == [] then []
    else
      var d := NormalizeLine(lines[|lines| - 1]);
      FilterLines(lines[..|lines| - 1]) + (if IsKept(d) then [d] else [])
  }

  /** Every kept string is the normalised form of some input line. */
  lemma {:induction false} FilterLinesOrigin(lines: seq<string>, d: string)
    requires d in FilterLines(lines)
    ensures exists i :: 0 <= i < |lines| && NormalizeLine(lines[i]) == d
    decreases |lines|
  {
    var init := lines[..|lines| - 1];
    var last := NormalizeLine(lines[|lines| - 1]);
    assert FilterLines(lines) == FilterLines(init) + (if IsKept(last) then [last] else []);
    if d in FilterLines(init) {
      FilterLinesOrigin(init, d);
      var i :| 0 <= i < |init| && NormalizeLine(init[i]) == d;
      assert lines[i] == init[i];
    } else {
      assert d == last;
    }
  }

  /** Every kept string is the normalised form of some input line, and so
      is trimmed and lower-case. */
  lemma FilterLinesSound(lines: seq<string>)
    ensures forall d :: d in FilterLines(lines) ==>
              IsTrimmed(d) && IsLowerCase(d) &&
              exists i :: 0 <= i < |lines| && NormalizeLine(lines[i]) == d
  {
    forall d | d in FilterLines(lines)
      ensures IsTrimmed(d) && IsLowerCase(d) && exists i :: 0 <= i < |lines| && NormalizeLine(lines[i]) == d
    {
      FilterLinesOrigin(lines, d);
      var i :| 0 <= i < |lines| && NormalizeLine(lines[i]) == d;
      NormalizeLineShape(lines[i]);
    }
  }

  /** Every input line whose normalised form passes the filter contributes
      that form. */
  lemma {:induction false} FilterLinesComplete(lines: seq<string>, i: nat)
    requires i < |lines| && IsKept(NormalizeLine(lines[i]))
    ensures NormalizeLine(lines[i]) in FilterLines(lines)
    decreases |lines|
  {
    var init := lines[..|lines| - 1];
    var last := NormalizeLine(lines[|lines| - 1]);
    assert FilterLines(lines) == FilterLines(init) + (if IsKept(last) then [last] else []);
    if i < |init| {
      assert init[i] == lines[i];
      FilterLinesComplete(init, i);
      assert NormalizeLine(lines[i]) in FilterLines(init);
    } else {
      assert i == |lines| - 1;
    }
  }

  /** The positions of `xs` whose element satisfies `p`. */
  function Positions<T>(xs: seq<T>, p: T -> bool): (ks: set<nat>) {
    set i: nat | i < |xs| && p(xs[i])
  }

  /** Adding an element adds its position exactly when it satisfies `p`. */
  lemma PositionsSnoc<T>(xs: seq<T>, p: T -> bool)
    requires xs != []
    ensures Positions(xs, p) ==
            Positions(xs[..|xs| - 1], p) + (if p(xs[|xs| - 1]) then {|xs| - 1} else {})
  {
    var n := |xs| - 1;
    var init := xs[..n];
    var extra: set<nat> := if p(xs[n]) then {n} else {};
    forall i: nat ensures i in Positions(xs, p) <==> i in Positions(init, p) + extra {
      if i < n {
        assert xs[i] == init[i];
      }
    }
  }

  /** A line passes when its normalised form is kept. */
  function Passes(line: string): (b: bool) {
    IsKept(NormalizeLine(line))
  }

  /** The positions of the lines whose normalised form passes the filter. */
  function KeptIndices(lines: seq<string>): (ks: set<nat>) {
    Positions(lines, Passes)
  }

  /** The filter keeps one string per passing line, so a domain on several
      lines is counted once for each of them. */
  lemma {:induction false} FilterLinesCount(lines: seq<string>)
    ensures |FilterLines(lines)| == |KeptIndices(lines)|
    decreases |lines|
  {
    if lines != [] {
      var n := |lines| - 1;
      var init := lines[..n];
      var last := NormalizeLine(lines[n]);
      var before := Positions(init, Passes);
      FilterLinesCount(init);
      PositionsSnoc(lines, Passes);
      if Passes(lines[n]) {
        assert FilterLines(lines) == FilterLines(init) + [last];
        assert n !in before;
        assert |before + {n}| == |before| + 1;
      } else {
        assert FilterLines(lines) == FilterLines(init);
      }
    }
  }

  lemma FilterLinesOnOneLine(lines: seq<string>)
    requires forall i :: 0 <= i < |lines| ==> '\n' !in lines[i]
    ensures forall d :: d in FilterLines(lines) ==> '\n' !in d
  {
    FilterLinesSound(lines);
    forall d | d in FilterLines(lines) ensures '\n' !in d {
      var i :| 0 <= i < |lines| && NormalizeLine(lines[i]) == d;
      ToLowerKeepsNonLetters(Trim(lines[i]), '\n');
      if '\n' in Trim(lines[i]) {
        TrimAddsNothing(lines[i], '\n');
      }
    }
  }

  /** The per-list pipeline of the fetch script on one downloaded text:
      `content.split('\n').map(normalise).filter(keep)`. */
  function TextDomains(content: string): (r: seq<string>)
    ensures |r| <= |Split(content, '\n')|
    ensures forall d :: d in r ==> IsKept(d)
  {
    FilterLines(Split(content, '\n'))
  }

  /** Every domain read from a text is a stored domain: kept by the filter,
      trimmed, lower-case and on one line. */
  lemma TextDomainsListed(content: string)
    ensures forall d :: d in TextDomains(content) ==> IsListedDomain(d)
  {
    var lines := Split(content, '\n');
    FilterLinesSound(lines);
    FilterLinesOnOneLine(lines);
  }

  /** Normalising a stored domain gives it back. */
  lemma NormalizeListed(d: string)
    requires IsListedDomain(d)
    ensures NormalizeLine(d) == d && IsKept(NormalizeLine(d))
  {
    TrimOfTrimmed(d);
    ToLowerOfLowerCase(d);
  }

  /** Filtering lines that are already stored domains keeps all of them, in
      order. */
  lemma {:induction false} FilterLinesOfListed(ds: seq<string>)
    requires forall i :: 0 <= i < |ds| ==> IsListedDomain(ds[i])
    ensures FilterLines(ds) == ds
    decreases |ds|
  {
    if ds != [] {
      var init, last := ds[..|ds| - 1], ds[|ds| - 1];
      assert ds == init + [last];
      assert IsListedDomain(last);
      FilterLinesOfListed(init);
      NormalizeListed(last);
    }
  }

  /** Writing stored domains one per line with `join('\n')` and reading the
      text back through the same split, normalise and filter returns exactly
      the domains written, in the same order. */
  lemma TextRoundTrip(ds: seq<string>)
    requires forall i :: 0 <= i < |ds| ==> IsListedDomain(ds[i])
    ensures TextDomains(Join(ds, "\n")) == ds
  {
    if ds == [] {
      assert Split("", '\n') == [""];
      assert FilterLines([""]) == FilterLines([]) + [];
    } else {
      SplitJoin(ds, '\n');
      assert "\n" == ['\n'];
      FilterLinesOfListed(ds);
    }
  }

  /** The filter on one more line. */
  lemma FilterLinesStep(lines: seq<string>, i: nat)
    requires i < |lines|
    ensures FilterLines(lines[..i + 1]) ==
            FilterLines(lines[..i]) + (if IsKept(NormalizeLine(lines[i])) then [NormalizeLine(lines[i])] else [])
  {
    assert lines[..i + 1][..i] == lines[..i];
  }
}
