/** The text normaliser `clean_text` of app.py: lower-case, delete URL-like runs,
    turn every non-word character into a space, collapse whitespace and trim.
    Characters are classified as Python's `re` and `str` do on ASCII text. */
module TextClean {
  import opened Collections

  /** Python's `\s` and `str.isspace` on ASCII: the space, \t \n \v \f \r and the
      separators 0x1C-0x1F. */
  predicate IsSpace(c: char) {
    c == ' ' || 9 <= c as int <= 13 || 28 <= c as int <= 31
  }

  /** Python's `\S`. */
  predicate IsNonSpace(c: char) {
    !IsSpace(c)
  }

  predicate IsUpper(c: char) {
    'A' <= c <= 'Z'
  }

  /** Python's `\w` on ASCII: letters, digits and the underscore. */
  predicate IsWordChar(c: char) {
    'a' <= c <= 'z' || 'A' <= c <= 'Z' || '0' <= c <= '9' || c == '_'
  }

  /** A character that may appear in normalised text. */
  predicate IsCleanChar(c: char) {
    c == ' ' || (IsWordChar(c) && !IsUpper(c))
  }

  /** `str.lower` on one ASCII character. */
  function Lower(c: char): (d: char)
    ensures !IsUpper(d)
    ensures IsWordChar(d) == IsWordChar(c)
    ensures IsSpace(d) == IsSpace(c)
  {
    if IsUpper(c) then (c as int + 32) as char else c
  }

  /** Length of the longest prefix of `s` whose characters all satisfy `p`. */
  function Span(s: string, p: char -> bool): (n: nat)
    ensures n <= |s|
    ensures forall i :: 0 <= i < n ==> p(s[i])
    ensures n < |s| ==> !p(s[n])
    decreases |s|
  {
    if s == [] || !p(s[0]) then 0 else 1 + Span(s[1..], p)
  }

  /** Length of the longest suffix of `s` made of whitespace. */
  function TrailingSpaces(s: string): (n: nat)
    ensures n <= |s|
    ensures forall i :: |s| - n <= i < |s| ==> IsSpace(s[i])
    ensures n < |s| ==> !IsSpace(s[|s| - 1 - n])
    decreases |s|
  {
    if s == [] || !IsSpace(s[|s| - 1]) then 0 else 1 + TrailingSpaces(s[..|s| - 1])
  }

  // ---------------------------------------------------------------------------
  // The four steps of clean_text
  // ---------------------------------------------------------------------------

  /** Step 1, `text.lower()`: each upper-case letter becomes its lower-case letter (32
      code points further on), every other character is kept. */
  function LowerCase(s: string): (r: string)
    ensures |r| == |s|
    ensures forall i :: 0 <= i < |r| ==> !IsUpper(r[i]) && (IsUpper(s[i]) || r[i] == s[i])
    ensures forall i :: 0 <= i < |r| ==> IsUpper(s[i]) ==> r[i] as int == s[i] as int + 32
  {
    seq(|s|, i requires 0 <= i < |s| => Lower(s[i]))
  }

  /** `prefix` followed by at least one non-whitespace character starts `s`. */
  predicate StartsUrl(s: string, prefix: string) {
    |s| > |prefix| && prefix <= s && !IsSpace(s[|prefix|])
  }

  /** One of the alternatives of `http\S+|www\S+|https\S+` matches at the start of `s`;
      whichever it is, the match runs to the first whitespace character. */
  predicate UrlAt(s: string) {
    StartsUrl(s, "http") || StartsUrl(s, "www") || StartsUrl(s, "https")
  }

  /** No position of `s` starts a match of `http\S+|www\S+|https\S+`. */
  ghost predicate NoUrl(s: string) {
    forall i :: 0 <= i < |s| ==> !UrlAt(s[i..])
  }

  /** Step 2, `re.sub(r"http\S+|www\S+|https\S+", "", text)`: the scan tries a match at
      each position from the left; a match is deleted together with the rest of its
      non-whitespace run, and the scan resumes after it. */
  function StripUrls(s: string): (r: string)
    ensures |r| <= |s|
    decreases |s|
  {
    if s == [] then []
    else if UrlAt(s) then
      UrlAtSpan(s);
      StripUrls(s[Span(s, IsNonSpace)..])
    else [s[0]] + StripUrls(s[1..])
  }

  /** Step 3, `re.sub(r'\W', ' ', text)`: every non-word character becomes a space,
      word characters are kept, no word character is invented. */
  function ReplaceNonWord(s: string): (r: string)
    ensures |r| == |s|
    ensures forall i :: 0 <= i < |r| ==> r[i] == ' ' || IsWordChar(r[i])
    ensures forall i :: 0 <= i < |r| ==> IsWordChar(s[i]) || IsWordChar(r[i]) ==> r[i] == s[i]
  {
    seq(|s|, i requires 0 <= i < |s| => if IsWordChar(s[i]) then s[i] else ' ')
  }

  /** Step 4a, `re.sub(r'\s+', ' ', text)`: every maximal run of whitespace becomes one
      space (CollapseShape states what the result looks like). It starts with
      whitespace exactly when `s` does. */
  function CollapseWhitespace(s: string): (r: string)
    ensures |r| <= |s|
    ensures |r| == 0 <==> |s| == 0
    ensures |r| > 0 ==> (IsSpace(r[0]) <==> IsSpace(s[0]))
    decreases |s|
  {
    if s == [] then []
    else if IsSpace(s[0]) then [' '] + CollapseWhitespace(s[Span(s, IsSpace)..])
    else [s[0]] + CollapseWhitespace(s[1..])
  }

  /** Step 4b, `str.strip()`: `s` without its leading and trailing whitespace. */
  function Strip(s: string): (r: string)
    ensures Span(s, IsSpace) + |r| <= |s|
    ensures r == s[Span(s, IsSpace)..Span(s, IsSpace) + |r|]
    ensures forall i :: 0 <= i < |s| && !(Span(s, IsSpace) <= i < Span(s, IsSpace) + |r|) ==> IsSpace(s[i])
    ensures |r| > 0 ==> !IsSpace(r[0]) && !IsSpace(r[|r| - 1])
  {
    var t := s[Span(s, IsSpace)..];
    t[..|t| - TrailingSpaces(t)]
  }

  /** `clean_text` (app.py:21-26). It never lengthens its input, so the empty text
      normalises to the empty text. */
  function CleanText(s: string): (r: string)
    ensures |r| <= |s|
  {
    Strip(CollapseWhitespace(ReplaceNonWord(StripUrls(LowerCase(s)))))
  }

  /** The shape of normalised text: lower-case word characters and single spaces,
      no space at either end. */
  ghost predicate IsClean(s: string) {
    && (forall i :: 0 <= i < |s| ==> IsCleanChar(s[i]))
    && (|s| > 0 ==> s[0] != ' ' && s[|s| - 1] != ' ')
    && (forall i :: 0 <= i < |s| - 1 ==> !(s[i] == ' ' && s[i + 1] == ' '))
  }

  // ---------------------------------------------------------------------------
  // Lemmas about URL matches
  // ---------------------------------------------------------------------------

  /** A URL match covers at least the four characters of its prefix and one more. */
  lemma UrlAtSpan(s: string)
    requires UrlAt(s)
    ensures Span(s, IsNonSpace) >= 4
  {
    var n := Span(s, IsNonSpace);
    if StartsUrl(s, "www") {
      assert s[0] == 'w' && s[1] == 'w' && s[2] == 'w';
    } else {
      assert StartsUrl(s, "http");
      assert s[0] == 'h' && s[1] == 't' && s[2] == 't' && s[3] == 'p';
    }
  }

  /** Whether a URL match starts `y` depends only on `y`'s leading non-whitespace run. */
  lemma UrlAtTransfer(x: string, y: string)
    requires UrlAt(y)
    requires Span(y, IsNonSpace) <= |x|
    requires x[..Span(y, IsNonSpace)] == y[..Span(y, IsNonSpace)]
    ensures UrlAt(x)
  {
    var n := Span(y, IsNonSpace);
    forall p | p in ["http", "www", "https"] && StartsUrl(y, p)
      ensures StartsUrl(x, p)
    {
      assert |p| < n;
      assert x[..|p| + 1] == y[..|p| + 1] by {
        assert x[..|p| + 1] == x[..n][..|p| + 1];
        assert y[..|p| + 1] == y[..n][..|p| + 1];
      }
      assert x[..|p|] == x[..|p| + 1][..|p|];
      assert y[..|p|] == y[..|p| + 1][..|p|];
      assert x[|p|] == x[..|p| + 1][|p|];
      assert y[|p|] == y[..|p| + 1][|p|];
    }
    assert StartsUrl(y, "http") || StartsUrl(y, "www") || StartsUrl(y, "https");
  }

  /** A URL match at the start of a prefix of `s` is a URL match at the start of `s`. */
  lemma UrlAtExtend(p: string, s: string)
    requires p <= s
    requires UrlAt(p)
    ensures UrlAt(s)
  {
    forall q | StartsUrl(p, q) ensures StartsUrl(s, q) {
      assert q <= s by { assert q == p[..|q|]; assert p[..|q|] == s[..|q|]; }
      assert p[|q|] == s[|q|];
    }
  }

  lemma NoUrlSuffix(s: string, k: nat)
    requires NoUrl(s)
    requires k <= |s|
    ensures NoUrl(s[k..])
  {
    forall i | 0 <= i < |s| - k ensures !UrlAt(s[k..][i..]) {
      assert s[k..][i..] == s[k + i..];
    }
  }

  /** Adding one character in front of a string free of URL matches adds at most the
      match at the new first position. */
  lemma NoUrlCons(c: char, r: string)
    requires NoUrl(r)
    requires !UrlAt([c] + r)
    ensures NoUrl([c] + r)
  {
    forall i | 0 < i < |[c] + r| ensures !UrlAt(([c] + r)[i..]) {
      assert ([c] + r)[i..] == r[i - 1..];
    }
  }

  /** If `r` is `t`'s first character followed by `rest`, and `rest` agrees with the
      tail of `t` on `m` characters, then `r` agrees with `t` on `1 + m`. */
  lemma PrefixCons(t: string, r: string, rest: string, m: nat)
    requires t != [] && r == [t[0]] + rest
    requires m <= |t| - 1 && m <= |rest|
    requires t[1..][..m] == rest[..m]
    ensures t[..1 + m] == r[..1 + m]
  {
    forall i | 0 <= i < 1 + m ensures t[i] == r[i] {
      if i > 0 {
        assert t[i] == t[1..][..m][i - 1];
        assert r[i] == rest[..m][i - 1];
      }
    }
  }

  lemma SpanCons(c: char, r: string, p: char -> bool)
    requires p(c)
    ensures Span([c] + r, p) == 1 + Span(r, p)
  {
    assert ([c] + r)[1..] == r;
  }

  // ---------------------------------------------------------------------------
  // Step 2 removes every URL
  // ---------------------------------------------------------------------------

  /** After step 2, text that starts with whitespace (or is empty) still does. */
  lemma StripUrlsSpaceHead(w: string)
    requires w == [] || IsSpace(w[0])
    ensures Span(StripUrls(w), IsNonSpace) == 0
  {
    if w != [] {
      assert !UrlAt(w);
      assert StripUrls(w) == [w[0]] + StripUrls(w[1..]);
    }
  }

  /** The leading non-whitespace run of StripUrls(t) is copied unchanged from the start of `t`. */
  lemma {:induction false} StripUrlsPrefix(t: string)
    ensures Span(StripUrls(t), IsNonSpace) <= |t|
    ensures t[..Span(StripUrls(t), IsNonSpace)] == StripUrls(t)[..Span(StripUrls(t), IsNonSpace)]
    decreases |t|
  {
    if t == [] {
    } else if UrlAt(t) {
      UrlAtSpan(t);
      StripUrlsSpaceHead(t[Span(t, IsNonSpace)..]);
    } else if IsSpace(t[0]) {
      StripUrlsSpaceHead(t);
    } else {
      StripUrlsPrefix(t[1..]);
      StripUrlsPrefixStep(t);
    }
  }

  /** The step of StripUrlsPrefix where `t` starts with a kept non-space character. */
  lemma StripUrlsPrefixStep(t: string)
    requires t != [] && !UrlAt(t) && !IsSpace(t[0])
    requires Span(StripUrls(t[1..]), IsNonSpace) <= |t[1..]|
    requires t[1..][..Span(StripUrls(t[1..]), IsNonSpace)] == StripUrls(t[1..])[..Span(StripUrls(t[1..]), IsNonSpace)]
    ensures Span(StripUrls(t), IsNonSpace) <= |t|
    ensures t[..Span(StripUrls(t), IsNonSpace)] == StripUrls(t)[..Span(StripUrls(t), IsNonSpace)]
  {
    var rest := StripUrls(t[1..]);
    var r := StripUrls(t);
    assert r == [t[0]] + rest;
    var m := Span(rest, IsNonSpace);
    SpanCons(t[0], rest, IsNonSpace);
    PrefixCons(t, r, rest, m);
  }

  /** No match of the URL pattern survives step 2. */
  lemma {:induction false} StripUrlsNoUrl(s: string)
    ensures NoUrl(StripUrls(s))
    decreases |s|
  {
    if s == [] {
    } else if UrlAt(s) {
      UrlAtSpan(s);
      StripUrlsNoUrl(s[Span(s, IsNonSpace)..]);
    } else {
      var rest := StripUrls(s[1..]);
      StripUrlsNoUrl(s[1..]);
      assert StripUrls(s) == [s[0]] + rest;
      if UrlAt([s[0]] + rest) {
        StripUrlsPrefix(s);
        UrlAtTransfer(s, StripUrls(s));
        assert false;
      }
      NoUrlCons(s[0], rest);
    }
  }

  // ---------------------------------------------------------------------------
  // Steps 3 and 4 do not create a URL
  // ---------------------------------------------------------------------------

  lemma ReplaceNonWordUrl(s: string)
    requires UrlAt(ReplaceNonWord(s))
    ensures UrlAt(s)
  {
    var r := ReplaceNonWord(s);
    forall p | p in ["http", "www", "https"] && StartsUrl(r, p)
      ensures StartsUrl(s, p)
    {
      forall j | 0 <= j < |p| ensures s[j] == p[j] {
        assert r[j] == p[j];
        assert IsWordChar(r[j]);
      }
      assert p <= s by { assert s[..|p|] == p; }
      assert IsWordChar(r[|p|]);
    }
  }

  lemma {:induction false} ReplaceNonWordNoUrl(s: string)
    requires NoUrl(s)
    ensures NoUrl(ReplaceNonWord(s))
  {
    var r := ReplaceNonWord(s);
    forall i | 0 <= i < |r| ensures !UrlAt(r[i..]) {
      assert r[i..] == ReplaceNonWord(s[i..]);
      if UrlAt(r[i..]) {
        ReplaceNonWordUrl(s[i..]);
      }
    }
  }

  /** The leading non-whitespace run of CollapseWhitespace(t) is copied unchanged from the start of `t`. */
  lemma {:induction false} CollapsePrefix(t: string)
    ensures Span(CollapseWhitespace(t), IsNonSpace) <= |t|
    ensures t[..Span(CollapseWhitespace(t), IsNonSpace)] == CollapseWhitespace(t)[..Span(CollapseWhitespace(t), IsNonSpace)]
    decreases |t|
  {
    if t == [] || IsSpace(t[0]) {
    } else {
      CollapsePrefix(t[1..]);
      CollapsePrefixStep(t);
    }
  }

  /** The step of CollapsePrefix where `t` starts with a non-space character. */
  lemma CollapsePrefixStep(t: string)
    requires t != [] && !IsSpace(t[0])
    requires Span(CollapseWhitespace(t[1..]), IsNonSpace) <= |t[1..]|
    requires t[1..][..Span(CollapseWhitespace(t[1..]), IsNonSpace)] ==
             CollapseWhitespace(t[1..])[..Span(CollapseWhitespace(t[1..]), IsNonSpace)]
    ensures Span(CollapseWhitespace(t), IsNonSpace) <= |t|
    ensures t[..Span(CollapseWhitespace(t), IsNonSpace)] == CollapseWhitespace(t)[..Span(CollapseWhitespace(t), IsNonSpace)]
  {
    var rest := CollapseWhitespace(t[1..]);
    var r := CollapseWhitespace(t);
    assert r == [t[0]] + rest;
    var m := Span(rest, IsNonSpace);
    SpanCons(t[0], rest, IsNonSpace);
    PrefixCons(t, r, rest, m);
  }

  /** No URL match starts with whitespace. */
  lemma SpaceHeadNoUrl(x: string)
    requires x != [] && IsSpace(x[0])
    ensures !UrlAt(x)
  {
  }

  lemma {:induction false} CollapseNoUrl(s: string)
    requires NoUrl(s)
    ensures NoUrl(CollapseWhitespace(s))
    decreases |s|
  {
    if s == [] {
    } else if IsSpace(s[0]) {
      var k := Span(s, IsSpace);
      NoUrlSuffix(s, k);
      CollapseNoUrl(s[k..]);
      SpaceHeadNoUrl([' '] + CollapseWhitespace(s[k..]));
      NoUrlCons(' ', CollapseWhitespace(s[k..]));
    } else {
      var rest := CollapseWhitespace(s[1..]);
      NoUrlSuffix(s, 1);
      CollapseNoUrl(s[1..]);
      assert CollapseWhitespace(s) == [s[0]] + rest;
      assert !UrlAt(s[0..]) && s[0..] == s;
      if UrlAt([s[0]] + rest) {
        CollapsePrefix(s);
        UrlAtTransfer(s, CollapseWhitespace(s));
        assert false;
      }
      NoUrlCons(s[0], rest);
    }
  }

  lemma StripNoUrl(s: string)
    requires NoUrl(s)
    ensures NoUrl(Strip(s))
  {
    var r := Strip(s);
    var a := Span(s, IsSpace);
    forall i | 0 <= i < |r| ensures !UrlAt(r[i..]) {
      assert r[i..] <= s[a + i..];
      if UrlAt(r[i..]) {
        UrlAtExtend(r[i..], s[a + i..]);
      }
    }
  }

  // ---------------------------------------------------------------------------
  // Properties of clean_text
  // ---------------------------------------------------------------------------

  /** What step 4a produces: whitespace only as single spaces, never two whitespace
      characters in a row. */
  lemma {:induction false} CollapseShape(s: string)
    ensures forall i :: 0 <= i < |CollapseWhitespace(s)| ==> IsSpace(CollapseWhitespace(s)[i]) ==> CollapseWhitespace(s)[i] == ' '
    ensures forall i :: 0 <= i < |CollapseWhitespace(s)| - 1 ==> !(IsSpace(CollapseWhitespace(s)[i]) && IsSpace(CollapseWhitespace(s)[i + 1]))
    decreases |s|
  {
    if s != [] {
      var r := CollapseWhitespace(s);
      var k := if IsSpace(s[0]) then Span(s, IsSpace) else 1;
      var rest := CollapseWhitespace(s[k..]);
      CollapseShape(s[k..]);
      assert r == [r[0]] + rest;
      forall i | 0 < i < |r| ensures r[i] == rest[i - 1] { }
    }
  }

  /** Step 4a invents no character other than the space. */
  lemma {:induction false} CollapseFrom(s: string)
    ensures forall i :: 0 <= i < |CollapseWhitespace(s)| ==> !IsSpace(CollapseWhitespace(s)[i]) ==> CollapseWhitespace(s)[i] in s
    decreases |s|
  {
    if s != [] {
      var r := CollapseWhitespace(s);
      var k := if IsSpace(s[0]) then Span(s, IsSpace) else 1;
      var t := s[k..];
      var rest := CollapseWhitespace(t);
      CollapseFrom(t);
      assert r == [r[0]] + rest;
      forall i | 0 < i < |r| && !IsSpace(r[i]) ensures r[i] in s {
        assert r[i] == rest[i - 1];
        var j :| 0 <= j < |t| && t[j] == r[i];
        assert s[k + j] == r[i];
      }
    }
  }

  /** Step 2 only deletes characters, so it brings back no upper-case letter. */
  lemma {:induction false} StripUrlsNoUpper(s: string)
    requires forall i :: 0 <= i < |s| ==> !IsUpper(s[i])
    ensures forall i :: 0 <= i < |StripUrls(s)| ==> !IsUpper(StripUrls(s)[i])
    decreases |s|
  {
    if s != [] {
      if UrlAt(s) {
        UrlAtSpan(s);
        var k := Span(s, IsNonSpace);
        StripUrlsSkip(s);
        assert forall i :: 0 <= i < |s[k..]| ==> s[k..][i] == s[k + i];
        StripUrlsNoUpper(s[k..]);
      } else {
        StripUrlsCopy(s);
        StripUrlsNoUpper(s[1..]);
        NoUpperCons(s[0], StripUrls(s[1..]));
      }
    }
  }

  lemma NoUpperCons(c: char, r: string)
    requires !IsUpper(c)
    requires forall i :: 0 <= i < |r| ==> !IsUpper(r[i])
    ensures forall i :: 0 <= i < |[c] + r| ==> !IsUpper(([c] + r)[i])
  {
  }

  lemma CollapseClean(s: string)
    requires forall i :: 0 <= i < |s| ==> IsCleanChar(s[i])
    ensures forall i :: 0 <= i < |CollapseWhitespace(s)| ==> IsCleanChar(CollapseWhitespace(s)[i])
    ensures forall i :: 0 <= i < |CollapseWhitespace(s)| - 1 ==> !(IsSpace(CollapseWhitespace(s)[i]) && IsSpace(CollapseWhitespace(s)[i + 1]))
  {
    var d := CollapseWhitespace(s);
    CollapseShape(s);
    CollapseFrom(s);
    forall i | 0 <= i < |d| ensures IsCleanChar(d[i]) {
      if !IsSpace(d[i]) {
        assert d[i] in s;
        var j :| 0 <= j < |s| && s[j] == d[i];
      }
    }
  }

  lemma StripClean(d: string)
    requires forall i :: 0 <= i < |d| ==> IsCleanChar(d[i])
    requires forall i :: 0 <= i < |d| - 1 ==> !(IsSpace(d[i]) && IsSpace(d[i + 1]))
    ensures IsClean(Strip(d))
  {
    var r := Strip(d);
    var off := Span(d, IsSpace);
    forall i | 0 <= i < |r| ensures IsCleanChar(r[i]) {
      assert r[i] == d[off + i];
    }
    forall i | 0 <= i < |r| - 1 ensures !(r[i] == ' ' && r[i + 1] == ' ') {
      assert r[i] == d[off + i] && r[i + 1] == d[off + i + 1];
    }
  }

  /** The output of clean_text holds only lower-case word characters and single spaces,
      with no space at either end. */
  lemma CleanTextIsClean(s: string)
    ensures IsClean(CleanText(s))
  {
    var b := StripUrls(LowerCase(s));
    StripUrlsNoUpper(LowerCase(s));
    var c := ReplaceNonWord(b);
    assert forall i :: 0 <= i < |c| ==> IsCleanChar(c[i]);
    CollapseClean(c);
    StripClean(CollapseWhitespace(c));
  }

  /** No match of the URL pattern is left in the output of clean_text. */
  lemma CleanTextNoUrl(s: string)
    ensures NoUrl(CleanText(s))
  {
    var b := StripUrls(LowerCase(s));
    StripUrlsNoUrl(LowerCase(s));
    ReplaceNonWordNoUrl(b);
    CollapseNoUrl(ReplaceNonWord(b));
    StripNoUrl(CollapseWhitespace(ReplaceNonWord(b)));
  }

  lemma LowerCaseFixed(s: string)
    requires forall i :: 0 <= i < |s| ==> !IsUpper(s[i])
    ensures LowerCase(s) == s
  {
  }

  lemma {:induction false} StripUrlsFixed(s: string)
    requires NoUrl(s)
    ensures StripUrls(s) == s
    decreases |s|
  {
    if s != [] {
      assert !UrlAt(s[0..]);
      assert s[0..] == s;
      NoUrlSuffix(s, 1);
      StripUrlsFixed(s[1..]);
    }
  }

  lemma ReplaceNonWordFixed(s: string)
    requires forall i :: 0 <= i < |s| ==> IsCleanChar(s[i])
    ensures ReplaceNonWord(s) == s
  {
  }

  lemma {:induction false} CollapseFixed(s: string)
    requires forall i :: 0 <= i < |s| ==> IsSpace(s[i]) ==> s[i] == ' '
    requires forall i :: 0 <= i < |s| - 1 ==> !(IsSpace(s[i]) && IsSpace(s[i + 1]))
    ensures CollapseWhitespace(s) == s
    decreases |s|
  {
    if s != [] {
      if IsSpace(s[0]) {
        assert Span(s, IsSpace) == 1 by {
          if |s| > 1 {
            assert !IsSpace(s[1]);
          }
        }
      }
      CollapseFixed(s[1..]);
    }
  }

  lemma StripFixed(s: string)
    requires |s| > 0 ==> !IsSpace(s[0]) && !IsSpace(s[|s| - 1])
    ensures Strip(s) == s
  {
    if |s| > 0 {
      assert Span(s, IsSpace) == 0;
      assert TrailingSpaces(s) == 0;
    }
  }

  /** Normalised text free of URLs is left unchanged by clean_text. */
  lemma CleanTextFixedPoint(s: string)
    requires IsClean(s)
    requires NoUrl(s)
    ensures CleanText(s) == s
  {
    LowerCaseFixed(s);
    StripUrlsFixed(s);
    ReplaceNonWordFixed(s);
    CollapseFixed(s);
    StripFixed(s);
  }

  /** clean_text is idempotent. */
  lemma CleanTextIdempotent(s: string)
    ensures CleanText(CleanText(s)) == CleanText(s)
  {
    CleanTextIsClean(s);
    CleanTextNoUrl(s);
    CleanTextFixedPoint(CleanText(s));
  }

  // ---------------------------------------------------------------------------
  // Step 2 word by word
  // ---------------------------------------------------------------------------

  /** The first position of `w` where a URL match starts, or |w| if there is none. */
  function FirstUrlStart(w: string): (i: nat)
    ensures i <= |w|
    ensures forall j :: 0 <= j < i ==> !UrlAt(w[j..])
    ensures i < |w| ==> UrlAt(w[i..])
    decreases |w|
  {
    if w == [] || UrlAt(w) then 0
    else
      var k := 1 + FirstUrlStart(w[1..]);
      assert forall j :: 1 <= j <= |w| ==> w[1..][j - 1..] == w[j..];
      k
  }

  /** A string whose characters all satisfy `p` is its own leading `p`-run. */
  lemma {:induction false} SpanAll(w: string, p: char -> bool)
    requires forall k :: 0 <= k < |w| ==> p(w[k])
    ensures Span(w, p) == |w|
    decreases |w|
  {
    if w != [] {
      SpanAll(w[1..], p);
    }
  }

  /** A prefix of `1 + k` characters is the first character followed by a prefix of
      the tail. */
  lemma PrefixOfTail(w: string, k: nat)
    requires k < |w|
    ensures w[..1 + k] == [w[0]] + w[1..][..k]
  {
  }

  lemma {:induction false} StripUrlsRun(w: string)
    requires Span(w, IsNonSpace) == |w|
    ensures StripUrls(w) == w[..FirstUrlStart(w)]
    decreases |w|
  {
    if w == [] {
    } else if UrlAt(w) {
      StripUrlsSkip(w);
      assert w[|w|..] == [];
    } else {
      var t := w[1..];
      assert Span(t, IsNonSpace) == |t|;
      StripUrlsRun(t);
      StripUrlsCopy(w);
      assert FirstUrlStart(w) == 1 + FirstUrlStart(t);
      PrefixOfTail(w, FirstUrlStart(t));
    }
  }

  /** On a run without whitespace, step 2 keeps exactly the part before the first URL
      match: the match and the rest of the run are deleted. */
  lemma StripUrlsWord(w: string)
    requires forall k :: 0 <= k < |w| ==> !IsSpace(w[k])
    ensures StripUrls(w) == w[..FirstUrlStart(w)]
  {
    SpanAll(w, IsNonSpace);
    StripUrlsRun(w);
  }

  /** The leading non-whitespace run of `w + [c] + rest` is `w`. */
  lemma {:induction false} SpanOfWord(w: string, c: char, rest: string)
    requires Span(w, IsNonSpace) == |w|
    requires IsSpace(c)
    ensures Span(w + [c] + rest, IsNonSpace) == |w|
    decreases |w|
  {
    if w == [] {
      assert (w + [c] + rest)[0] == c;
    } else {
      SpanOfWord(w[1..], c, rest);
      assert w + [c] + rest == [w[0]] + (w[1..] + [c] + rest);
      SpanCons(w[0], w[1..] + [c] + rest, IsNonSpace);
    }
  }

  /** Where no URL match starts, step 2 copies the first character. */
  lemma StripUrlsCopy(s: string)
    requires s != [] && !UrlAt(s)
    ensures StripUrls(s) == [s[0]] + StripUrls(s[1..])
  {
  }

  /** A run with a URL match that starts no longer text starts none itself. */
  lemma NoUrlOfPrefix(w: string, s: string)
    requires w <= s
    requires !UrlAt(s)
    ensures !UrlAt(w)
  {
    if UrlAt(w) {
      UrlAtExtend(w, s);
    }
  }

  /** Where a URL match starts, step 2 deletes the leading non-whitespace run. */
  lemma StripUrlsSkip(s: string)
    requires UrlAt(s)
    ensures StripUrls(s) == StripUrls(s[Span(s, IsNonSpace)..])
  {
  }

  /** The first run of a text that starts with a URL match is deleted entirely. */
  lemma StripUrlsFirstRun(s: string, n: nat)
    requires n <= |s| && Span(s, IsNonSpace) == n
    requires UrlAt(s)
    ensures StripUrls(s[..n]) == []
  {
    var x := s[..n];
    assert x[..n] == s[..n];
    UrlAtTransfer(x, s);
    SpanAll(x, IsNonSpace);
    assert x[n..] == [];
  }

  /** Text that starts with whitespace keeps that character through step 2. */
  lemma StripUrlsSpaceCopy(s: string, n: nat)
    requires n < |s| && IsSpace(s[n])
    ensures StripUrls(s[n..]) == [s[n]] + StripUrls(s[n + 1..])
  {
    SpaceHeadNoUrl(s[n..]);
    StripUrlsCopy(s[n..]);
    assert s[n..][1..] == s[n + 1..];
  }

  /** StripUrlsAt where a URL match starts `s`: both the whole text and its first run
      lose that run. */
  lemma StripUrlsAtUrl(s: string, n: nat)
    requires n < |s| && Span(s, IsNonSpace) == n
    requires UrlAt(s)
    ensures StripUrls(s) == StripUrls(s[..n]) + [s[n]] + StripUrls(s[n + 1..])
  {
    StripUrlsFirstRun(s, n);
    StripUrlsSpaceCopy(s, n);
    StripUrlsSkip(s);
  }

  /** The inductive step of StripUrlsAt for any string map `f` that copies the first
      character of `s` and of its first run `s[..n]`, given the split for `s[1..]`. */
  lemma SplitCopyStep(f: string -> string, s: string, n: nat)
    requires 0 < n < |s|
    requires f(s) == [s[0]] + f(s[1..])
    requires f(s[..n]) == [s[0]] + f(s[..n][1..])
    requires f(s[1..]) == f(s[1..][..n - 1]) + [s[1..][n - 1]] + f(s[1..][n..])
    ensures f(s) == f(s[..n]) + [s[n]] + f(s[n + 1..])
  {
    assert s[..n][1..] == s[1..][..n - 1];
    assert s[1..][n - 1] == s[n];
    assert s[1..][n..] == s[n + 1..];
  }

  /** StripUrlsAt where no URL match starts `s`, given the split for `s[1..]`. */
  lemma StripUrlsAtCopy(s: string, n: nat)
    requires 0 < n < |s| && Span(s, IsNonSpace) == n
    requires !UrlAt(s)
    requires StripUrls(s[1..]) == StripUrls(s[1..][..n - 1]) + [s[1..][n - 1]] + StripUrls(s[1..][n..])
    ensures StripUrls(s) == StripUrls(s[..n]) + [s[n]] + StripUrls(s[n + 1..])
  {
    NoUrlOfPrefix(s[..n], s);
    StripUrlsCopy(s);
    StripUrlsCopy(s[..n]);
    SplitCopyStep(StripUrls, s, n);
  }

  /** StripUrlsAt where `s` starts with whitespace. */
  lemma StripUrlsAtSpace(s: string)
    requires s != [] && IsSpace(s[0])
    ensures StripUrls(s) == StripUrls(s[..0]) + [s[0]] + StripUrls(s[1..])
  {
    StripUrlsSpaceCopy(s, 0);
    assert s[0..] == s;
    assert s[..0] == [];
  }

  /** Step 2 splits at the first whitespace character `s[n]`. */
  lemma {:induction false} StripUrlsAt(s: string, n: nat)
    requires n < |s| && Span(s, IsNonSpace) == n
    ensures StripUrls(s) == StripUrls(s[..n]) + [s[n]] + StripUrls(s[n + 1..])
    decreases n
  {
    if n == 0 {
      StripUrlsAtSpace(s);
    } else if UrlAt(s) {
      StripUrlsAtUrl(s, n);
    } else {
      StripUrlsAt(s[1..], n - 1);
      StripUrlsAtCopy(s, n);
    }
  }

  /** A whitespace character separates step 2's work: the text before it and the text
      after it are processed independently, and the whitespace itself is kept. */
  lemma StripUrlsSplit(w: string, c: char, rest: string)
    requires forall k :: 0 <= k < |w| ==> !IsSpace(w[k])
    requires IsSpace(c)
    ensures StripUrls(w + [c] + rest) == StripUrls(w) + [c] + StripUrls(rest)
  {
    var s := w + [c] + rest;
    SpanAll(w, IsNonSpace);
    SpanOfWord(w, c, rest);
    StripUrlsAt(s, |w|);
    assert s[..|w|] == w;
    assert s[|w| + 1..] == rest;
  }

  // ---------------------------------------------------------------------------
  // Step 4a as a left-to-right scan
  // ---------------------------------------------------------------------------

  /** `re.sub(r'\s+', ' ', s)` read one character at a time: a whitespace character is
      written as one space unless the previous character was whitespace as well
      (`afterSpace`); any other character is copied. */
  function Squeeze(s: string, afterSpace: bool): string
    decreases |s|
  {
    if s == [] then []
    else if IsSpace(s[0]) then (if afterSpace then [] else [' ']) + Squeeze(s[1..], true)
    else [s[0]] + Squeeze(s[1..], false)
  }

  lemma {:induction false} SqueezeSkip(s: string, k: nat)
    requires k <= Span(s, IsSpace)
    ensures Squeeze(s, true) == Squeeze(s[k..], true)
    decreases k
  {
    if k > 0 {
      assert s[1..][k - 1..] == s[k..];
      SqueezeSkip(s[1..], k - 1);
    }
  }

  /** CollapseWhitespace agrees with the character-by-character scan. */
  lemma {:induction false} CollapseIsSqueeze(s: string)
    ensures CollapseWhitespace(s) == Squeeze(s, false)
    decreases |s|
  {
    if s != [] {
      if IsSpace(s[0]) {
        var k := Span(s, IsSpace);
        SqueezeSkip(s[1..], k - 1);
        assert s[1..][k - 1..] == s[k..];
        CollapseIsSqueeze(s[k..]);
      } else {
        CollapseIsSqueeze(s[1..]);
      }
    }
  }

  lemma {:induction false} SqueezeKeepsNonSpace(s: string, afterSpace: bool)
    ensures Filter(Squeeze(s, afterSpace), IsNonSpace) == Filter(s, IsNonSpace)
    decreases |s|
  {
    if s != [] {
      SqueezeKeepsNonSpace(s[1..], IsSpace(s[0]));
      var head := if IsSpace(s[0]) then (if afterSpace then [] else [' ']) else [s[0]];
      assert Squeeze(s, afterSpace) == head + Squeeze(s[1..], IsSpace(s[0]));
      FilterConcat(head, Squeeze(s[1..], IsSpace(s[0])), IsNonSpace);
      if head != [] {
        assert head[1..] == [];
      }
    }
  }

  /** Step 4a deletes and invents no non-whitespace character: the non-whitespace
      characters of its result are those of its input, in the same order. */
  lemma CollapseKeepsNonSpace(s: string)
    ensures Filter(CollapseWhitespace(s), IsNonSpace) == Filter(s, IsNonSpace)
  {
    CollapseIsSqueeze(s);
    SqueezeKeepsNonSpace(s, false);
  }
}
