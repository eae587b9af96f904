/** The JavaScript string operations the two list scripts and the server rely on:
    String.prototype.trim, toLowerCase, split on one character,
    Array.prototype.join, and the UTF-16 code units behind `.length` and
    string comparison. */
module JsString {

  /** WhiteSpace or LineTerminator in the sense of sections 12.2 and 12.3 of
      ECMA-262 (TAB, VT, FF, ZWNBSP, the Unicode space separators, LF, CR,
      LS, PS): exactly the characters String.prototype.trim strips. */
  predicate IsWhitespace(c: char) {
    || c == '\t' || c == '\n' || c == '\U{000B}' || c == '\U{000C}' || c == '\r'
    || c == ' ' || c == '\U{00A0}' || c == '\U{1680}'
    || ('\U{2000}' <= c <= '\U{200A}')
    || c == '\U{2028}' || c == '\U{2029}' || c == '\U{202F}' || c == '\U{205F}'
    || c == '\U{3000}' || c == '\U{FEFF}'
  }

  predicate AllWhitespace(s: string) {
    forall i :: 0 <= i < |s| ==> IsWhitespace(s[i])
  }

  /** Neither the first nor the last character is whitespace. */
  predicate IsTrimmed(s: string) {
    s == [] || (!IsWhitespace(s[0]) && !IsWhitespace(s[|s| - 1]))
  }

  /** Drops the longest all-whitespace prefix. */
  function TrimStart(s: string): (r: string)
    ensures |r| <= |s| && r == s[|s| - |r|..]
    ensures AllWhitespace(s[..|s| - |r|])
    ensures r == [] || !IsWhitespace(r[0])
    decreases |s|
  {
    if |s| > 0 && IsWhitespace(s[0]) then TrimStart(s[1..]) else s
  }

  /** Drops the longest all-whitespace suffix. */
  function TrimEnd(s: string): (r: string)
    ensures |r| <= |s| && r == s[..|r|]
    ensures AllWhitespace(s[|r|..])
    ensures r == [] || !IsWhitespace(r[|r| - 1])
    decreases |s|
  {
    if |s| > 0 && IsWhitespace(s[|s| - 1]) then TrimEnd(s[..|s| - 1]) else s
  }

  /** String.prototype.trim: the result neither starts nor ends with
      whitespace. */
  function Trim(s: string): (r: string)
    ensures IsTrimmed(r) && |r| <= |s|
  {
    TrimEnd(TrimStart(s))
  }

  /** What trim removes is whitespace: `s` is some whitespace, then
      `Trim(s)`, then some whitespace. */
  lemma TrimRemovesOnlyWhitespace(s: string)
    ensures var r := Trim(s);
            exists k :: 0 <= k <= |s| - |r| && s[k..k + |r|] == r
                        && AllWhitespace(s[..k]) && AllWhitespace(s[k + |r|..])
  {
    var t := TrimStart(s);
    var r := TrimEnd(t);
    var k := |s| - |t|;
    assert t == s[k..] && r == t[..|r|];
    assert s[k..k + |r|] == r by {
      assert s[k..k + |r|] == s[k..][..|r|];
    }
    assert s[k + |r|..] == t[|r|..] by {
      assert s[k + |r|..] == s[k..][|r|..];
    }
    assert AllWhitespace(s[..k]) && AllWhitespace(t[|r|..]);
    assert 0 <= k <= |s| - |r| && s[k..k + |r|] == r && AllWhitespace(s[..k]) && AllWhitespace(s[k + |r|..]);
  }

  /** Applying trim to a string without leading or trailing whitespace
      returns the same string: trim is idempotent. */
  lemma TrimOfTrimmed(s: string)
    requires IsTrimmed(s)
    ensures Trim(s) == s
  {
  }

  /** Trim adds no character. */
  lemma TrimAddsNothing(s: string, c: char)
    requires c in Trim(s)
    ensures c in s
  {
    var t := TrimStart(s);
    var r := TrimEnd(t);
    var i :| 0 <= i < |r| && r[i] == c;
    assert t[i] == c;
    assert s[|s| - |t| + i] == c;
  }

  /** Trim keeps every character that is not whitespace. */
  lemma TrimKeepsContent(s: string, c: char)
    requires c in s && !IsWhitespace(c)
    ensures c in Trim(s)
  {
    var t := TrimStart(s);
    var r := TrimEnd(t);
    var k := |s| - |t|;
    var i :| 0 <= i < |s| && s[i] == c;
    forall j | 0 <= j < k ensures IsWhitespace(s[j]) {
      assert s[..k][j] == s[j];
    }
    forall j | |r| <= j < |t| ensures IsWhitespace(t[j]) {
      assert t[|r|..][j - |r|] == t[j];
    }
    assert k <= i && t[i - k] == c;
    assert r[i - k] == c;
  }

  function LowerChar(c: char): (l: char) {
    if 'A' <= c <= 'Z' then (c as int + 32) as char else c
  }

  predicate IsLowerCase(s: string) {
    forall i :: 0 <= i < |s| ==> !('A' <= s[i] <= 'Z')
  }

  /** String.prototype.toLowerCase, restricted to the ASCII letters A-Z. The
      result has no upper-case ASCII letter, the length is unchanged, every
      other character is kept, and a lower-case string is left as it is. */
  function ToLower(s: string): (r: string)
    ensures |r| == |s| && IsLowerCase(r)
    ensures forall i {:trigger r[i]} :: 0 <= i < |s| ==>
              if 'A' <= s[i] <= 'Z' then r[i] as int == s[i] as int + 32 else r[i] == s[i]
  {
    seq(|s|, i requires 0 <= i < |s| => LowerChar(s[i]))
  }

  /** Lower-casing a lower-case string leaves it as it is, so toLowerCase
      is idempotent. */
  lemma ToLowerOfLowerCase(s: string)
    requires IsLowerCase(s)
    ensures ToLower(s) == s
  {
  }

  /** Lower-casing leaves a character that is not an ASCII letter where it
      was, and does not produce it from anything else. */
  lemma ToLowerKeepsNonLetters(s: string, c: char)
    requires !('A' <= c <= 'Z') && !('a' <= c <= 'z')
    ensures c in ToLower(s) <==> c in s
  {
    if c in ToLower(s) {
      var i :| 0 <= i < |s| && ToLower(s)[i] == c;
      assert s[i] == c;
    }
    if c in s {
      var i :| 0 <= i < |s| && s[i] == c;
      assert ToLower(s)[i] == c;
    }
  }

  /** Lower-casing neither creates nor removes whitespace. */
  lemma LowerCharWhitespace(c: char)
    ensures IsWhitespace(LowerChar(c)) == IsWhitespace(c)
  {
  }

  lemma {:induction false} TrimStartLower(s: string)
    ensures TrimStart(ToLower(s)) == ToLower(TrimStart(s))
    decreases |s|
  {
    if |s| > 0 {
      LowerCharWhitespace(s[0]);
      assert ToLower(s)[1..] == ToLower(s[1..]);
      TrimStartLower(s[1..]);
    }
  }

  lemma {:induction false} TrimEndLower(s: string)
    ensures TrimEnd(ToLower(s)) == ToLower(TrimEnd(s))
    decreases |s|
  {
    if |s| > 0 {
      var t, init := ToLower(s), s[..|s| - 1];
      assert t[|s| - 1] == LowerChar(s[|s| - 1]);
      LowerCharWhitespace(s[|s| - 1]);
      assert t[..|s| - 1] == ToLower(init);
      TrimEndLower(init);
      if IsWhitespace(s[|s| - 1]) {
        assert TrimEnd(t) == TrimEnd(ToLower(init));
      } else {
        assert TrimEnd(t) == t && TrimEnd(s) == s;
      }
    }
  }

  /** `s.trim().toLowerCase()` and `s.toLowerCase().trim()` agree, so the
      text branch and the JSON branch of the blacklist parser normalise
      alike. */
  lemma TrimLowerCommute(s: string)
    ensures Trim(ToLower(s)) == ToLower(Trim(s))
  {
    TrimStartLower(s);
    TrimEndLower(TrimStart(s));
  }

  /** String.prototype.split with a one-character separator: the pieces
      between separators, one more piece than there are separators, none of
      them containing the separator. */
  function Split(s: string, sep: char): (r: seq<string>)
    ensures |r| >= 1
    ensures forall i :: 0 <= i < |r| ==> sep !in r[i]
    decreases |s|
  {
    if |s| == 0 then [""]
    else if s[0] == sep then [""] + Split(s[1..], sep)
    else
      var rest := Split(s[1..], sep);
      [[s[0]] + rest[0]] + rest[1..]
  }

  /** Array.prototype.join: the elements with `sep` between neighbours and
      nowhere else. */
  function Join(xs: seq<string>, sep: string): (r: string)
    decreases |xs|
  {
    if |xs| == 0 then ""
    else if |xs| == 1 then xs[0]
    else xs[0] + sep + Join(xs[1..], sep)
  }

  lemma {:induction false} SplitWithoutSeparator(a: string, sep: char)
    requires sep !in a
    ensures Split(a, sep) == [a]
    decreases |a|
  {
    if |a| > 0 {
      SplitWithoutSeparator(a[1..], sep);
      assert [a[0]] + a[1..] == a;
    }
  }

  lemma {:induction false} SplitAfterPiece(a: string, sep: char, b: string)
    requires sep !in a
    ensures Split(a + [sep] + b, sep) == [a] + Split(b, sep)
    decreases |a|
  {
    if |a| == 0 {
      assert a + [sep] + b == [sep] + b;
      assert ([sep] + b)[1..] == b;
    } else {
      assert (a + [sep] + b)[1..] == a[1..] + [sep] + b;
      SplitAfterPiece(a[1..], sep, b);
      assert [a[0]] + a[1..] == a;
    }
  }

  /** Splitting a join on the same separator gives the pieces back, provided
      no piece contains the separator. */
  lemma {:induction false} SplitJoin(xs: seq<string>, sep: char)
    requires |xs| >= 1
    requires forall i :: 0 <= i < |xs| ==> sep !in xs[i]
    ensures Split(Join(xs, [sep]), sep) == xs
    decreases |xs|
  {
    if |xs| == 1 {
      SplitWithoutSeparator(xs[0], sep);
    } else {
      SplitJoin(xs[1..], sep);
      SplitAfterPiece(xs[0], sep, Join(xs[1..], [sep]));
      assert [xs[0]] + xs[1..] == xs;
    }
  }

  /** Splitting a join followed by the separator and more text gives the
      pieces, then the pieces of that text. */
  lemma {:induction false} SplitJoinThen(xs: seq<string>, sep: char, t: string)
    requires |xs| >= 1
    requires forall i :: 0 <= i < |xs| ==> sep !in xs[i]
    ensures Split(Join(xs, [sep]) + [sep] + t, sep) == xs + Split(t, sep)
    decreases |xs|
  {
    if |xs| == 1 {
      SplitAfterPiece(xs[0], sep, t);
    } else {
      var rest := Join(xs[1..], [sep]);
      var after := rest + [sep] + t;
      assert Join(xs, [sep]) == xs[0] + [sep] + rest;
      assert Join(xs, [sep]) + [sep] + t == xs[0] + [sep] + after;
      SplitAfterPiece(xs[0], sep, after);
      forall i | 0 <= i < |xs[1..]| ensures sep !in xs[1..][i] {
        assert xs[1..][i] == xs[i + 1];
      }
      SplitJoinThen(xs[1..], sep, t);
      assert Split(after, sep) == xs[1..] + Split(t, sep);
      assert [xs[0]] + (xs[1..] + Split(t, sep)) == xs + Split(t, sep);
    }
  }

  /** Joining the pieces of a split on the same separator rebuilds the string. */
  lemma {:induction false} JoinSplit(s: string, sep: char)
    ensures Join(Split(s, sep), [sep]) == s
    decreases |s|
  {
    if |s| > 0 {
      JoinSplit(s[1..], sep);
      var rest := Split(s[1..], sep);
      if s[0] == sep {
        assert ([""] + rest)[1..] == rest;
      } else {
        var r := [[s[0]] + rest[0]] + rest[1..];
        assert r[1..] == rest[1..];
        if |rest| > 1 {
          assert rest == [rest[0]] + rest[1..];
        }
      }
    }
  }

  /** The UTF-16 code units of one character: a code point below 0x10000 is
      one unit, any other a high surrogate followed by a low surrogate. */
  function CodeUnits(c: char): (r: seq<int>)
    ensures |r| == 1 <==> c as int < 0x10000
    ensures |r| == 1 || |r| == 2
    ensures |r| == 1 ==> r[0] == c as int && (r[0] < 0xD800 || 0xE000 <= r[0] < 0x10000)
    ensures |r| == 2 ==> 0xD800 <= r[0] < 0xDC00 && 0xDC00 <= r[1] < 0xE000
  {
    var v := c as int;
    if v < 0x10000 then [v]
    else [0xD800 + (v - 0x10000) / 0x400, 0xDC00 + (v - 0x10000) % 0x400]
  }

  /** The UTF-16 code units of a string, which is what a JavaScript string is. */
  function Utf16(s: string): (units: seq<int>)
    decreases |s|
  {
    if s == [] then [] else CodeUnits(s[0]) + Utf16(s[1..])
  }

  /** String.prototype.length: the number of UTF-16 code units, which is the
      number of characters plus the number of characters outside the Basic
      Multilingual Plane. */
  function Length(s: string): (n: nat)
    ensures |s| <= n <= 2 * |s|
    ensures (forall i :: 0 <= i < |s| ==> s[i] as int < 0x10000) ==> n == |s|
    ensures (forall i :: 0 <= i < |s| ==> s[i] as int >= 0x10000) ==> n == 2 * |s|
  {
    Utf16Bounds(s);
    |Utf16(s)|
  }

  lemma {:induction false} Utf16Bounds(s: string)
    ensures |s| <= |Utf16(s)| <= 2 * |s|
    ensures (forall i :: 0 <= i < |s| ==> s[i] as int < 0x10000) ==> |Utf16(s)| == |s|
    ensures (forall i :: 0 <= i < |s| ==> s[i] as int >= 0x10000) ==> |Utf16(s)| == 2 * |s|
    decreases |s|
  {
    if s != [] {
      Utf16Bounds(s[1..]);
    }
  }

  /** The code units of a character followed by anything determine the
      character and what follows: UTF-16 is a prefix code. */
  lemma CodeUnitsPrefixFree(x: char, p: seq<int>, y: char, q: seq<int>)
    requires CodeUnits(x) + p == CodeUnits(y) + q
    ensures x == y && p == q
  {
    var ux, uy := CodeUnits(x), CodeUnits(y);
    assert ux[0] == (ux + p)[0] && uy[0] == (uy + q)[0];
    if |ux| == 1 {
      assert |uy| == 1;
      assert x as int == y as int;
    } else {
      assert |uy| == 2;
      assert ux[1] == (ux + p)[1] && uy[1] == (uy + q)[1];
      var vx, vy := x as int - 0x10000, y as int - 0x10000;
      assert vx == (vx / 0x400) * 0x400 + vx % 0x400;
      assert vy == (vy / 0x400) * 0x400 + vy % 0x400;
      assert x as int == y as int;
    }
    assert ux == uy;
    assert p == (ux + p)[|ux|..];
    assert q == (uy + q)[|uy|..];
  }

  /** Different strings have different UTF-16 encodings. */
  lemma {:induction false} Utf16Injective(a: string, b: string)
    requires Utf16(a) == Utf16(b)
    ensures a == b
    decreases |a|
  {
    if a != [] && b != [] {
      CodeUnitsPrefixFree(a[0], Utf16(a[1..]), b[0], Utf16(b[1..]));
      Utf16Injective(a[1..], b[1..]);
      assert a == [a[0]] + a[1..] && b == [b[0]] + b[1..];
    }
  }
}
