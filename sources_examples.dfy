/** Worked inputs for `extract_sources`, each result derived from the declarative
    description of `findall` in module Sources. */
module SourcesExamples {
  import opened Sources

  /** A URL followed by the end of the text or by a character outside the class is a
      match at its position. */
  lemma UrlBetween(pre: string, u: string, post: string)
    requires IsUrl(u)
    requires post == [] || !IsUrlChar(post[0])
    ensures IsMatch(pre + u + post, |pre|, |pre| + |u|)
  {
  }

  /** Every match starts with `h`, so no match starts at any other character. */
  lemma NoMatchOffH(text: string, p: nat)
    requires p < |text| && text[p] != 'h'
    ensures NoMatchAt(text, p)
  {
  }

  /** A stretch of text without the letter `h` holds no match start. */
  lemma NoMatchInPlainPart(a: string, m: string, b: string)
    requires 'h' !in m
    ensures NoMatchBetween(a + m + b, |a|, |a| + |m|)
  {
    var t := a + m + b;
    forall p: nat | |a| <= p < |a| + |m|
      ensures NoMatchAt(t, p)
    {
      assert t[p] == m[p - |a|];
      NoMatchOffH(t, p);
    }
  }

  /** A text with exactly one match, and nothing matching before or after it. */
  lemma OneMatch(t: string, s1: nat, e1: nat)
    requires IsMatch(t, s1, e1)
    requires NoMatchBetween(t, 0, s1) && NoMatchBetween(t, e1, |t|)
    ensures ExtractSources(t) == [t[s1..e1]]
  {
    var spans := [Span(s1, e1)];
    assert GapEnd(t, spans, 0) == s1;
    assert GapStart(0, spans, 1) == e1 && GapEnd(t, spans, 1) == |t|;
    assert IsFindAll(t, 0, spans);
    ExtractSourcesCharacterized(t, spans);
    assert Substrings(t, spans) == [t[s1..e1]];
  }

  /** A text with exactly two matches, and nothing matching around or between them. */
  lemma TwoMatches(t: string, s1: nat, e1: nat, s2: nat, e2: nat)
    requires IsMatch(t, s1, e1) && IsMatch(t, s2, e2) && e1 <= s2
    requires NoMatchBetween(t, 0, s1) && NoMatchBetween(t, e1, s2) && NoMatchBetween(t, e2, |t|)
    ensures ExtractSources(t) == [t[s1..e1], t[s2..e2]]
  {
    var spans := [Span(s1, e1), Span(s2, e2)];
    assert GapEnd(t, spans, 0) == s1;
    assert GapStart(0, spans, 1) == e1 && GapEnd(t, spans, 1) == s2;
    assert GapStart(0, spans, 2) == e2 && GapEnd(t, spans, 2) == |t|;
    assert IsFindAll(t, 0, spans);
    ExtractSourcesCharacterized(t, spans);
    assert Substrings(t, spans) == [t[s1..e1], t[s2..e2]];
  }

  /** Prose without the letter `h`, one URL, and prose without `h` that starts with a
      character outside the class: the URL is the only source. */
  lemma OneUrlInProse(pre: string, u: string, post: string)
    requires 'h' !in pre && 'h' !in post
    requires IsUrl(u)
    requires post == [] || !IsUrlChar(post[0])
    ensures ExtractSources(pre + u + post) == [u]
  {
    var t := pre + u + post;
    UrlBetween(pre, u, post);
    NoMatchInPlainPart([], pre, u + post);
    assert [] + pre + (u + post) == t;
    NoMatchInPlainPart(pre + u, post, []);
    assert pre + u + post + [] == t;
    OneMatch(t, |pre|, |pre| + |u|);
    assert t[|pre|..|pre| + |u|] == u;
  }

  /** The two URLs of `pre + a + mid + b` are matches at their positions. */
  lemma TwoUrlsMatch(pre: string, a: string, mid: string, b: string)
    requires IsUrl(a) && IsUrl(b)
    requires mid != [] && !IsUrlChar(mid[0])
    ensures var t := pre + a + mid + b;
      IsMatch(t, |pre|, |pre| + |a|) && IsMatch(t, |pre| + |a| + |mid|, |t|)
  {
    var t := pre + a + mid + b;
    UrlBetween(pre, a, mid + b);
    assert pre + a + (mid + b) == t;
    UrlBetween(pre + a + mid, b, []);
    assert pre + a + mid + b + [] == t;
  }

  /** No match starts in the prose before the first URL or between the two URLs of
      `pre + a + mid + b`. */
  lemma TwoUrlsGaps(pre: string, a: string, mid: string, b: string)
    requires 'h' !in pre && 'h' !in mid
    ensures var t := pre + a + mid + b;
      NoMatchBetween(t, 0, |pre|) && NoMatchBetween(t, |pre| + |a|, |pre| + |a| + |mid|)
  {
    var t := pre + a + mid + b;
    NoMatchInPlainPart([], pre, a + mid + b);
    assert [] + pre + (a + mid + b) == t;
    NoMatchInPlainPart(pre + a, mid, b);
  }

  /** Prose without the letter `h`, a URL, prose without `h` that starts with a
      character outside the class, and a URL that ends the text: both URLs are
      returned, in order. */
  lemma TwoUrlsInProse(pre: string, a: string, mid: string, b: string)
    requires 'h' !in pre && 'h' !in mid
    requires IsUrl(a) && IsUrl(b)
    requires mid != [] && !IsUrlChar(mid[0])
    ensures ExtractSources(pre + a + mid + b) == [a, b]
  {
    var t := pre + a + mid + b;
    var s2 := |pre| + |a| + |mid|;
    TwoUrlsMatch(pre, a, mid, b);
    TwoUrlsGaps(pre, a, mid, b);
    TwoMatches(t, |pre|, |pre| + |a|, s2, |t|);
    assert t[|pre|..|pre| + |a|] == a && t[s2..|t|] == b;
  }

  /** Two URLs in running text come back in order, each stopped by the space after it
      or by the end of the text. */
  lemma TwoUrlsInOrder()
    ensures var a, b := "https://example.com/a", "https://example.com/b";
      ExtractSources("See " + a + " and " + b) == [a, b]
  {
    var a, b := "https://example.com/a", "https://example.com/b";
    TwoUrlsInProse("See ", a, " and ", b);
  }

  /** A closing parenthesis ends a URL, but a trailing full stop is kept. */
  lemma ParenthesisStopsFullStopKept()
    ensures var u := "http://a.io/x.";
      ExtractSources("(see " + u + ")") == [u]
  {
    OneUrlInProse("(see ", "http://a.io/x.", ")");
  }

  /** The same URL twice is returned twice: duplicates are not removed. */
  lemma DuplicatesKept()
    ensures var u := "http://a";
      ExtractSources(u + " " + u) == [u, u]
  {
    var u := "http://a";
    TwoUrlsInProse("", u, " ", u);
    assert "" + u + " " + u == u + " " + u;
  }

  /** A scheme with nothing allowed after it is not a URL: `https://` followed by a
      character outside the class gives nothing, because that character stops
      `https://` and `http` cannot be followed by `s://`. */
  lemma BareSchemeIgnored(post: string)
    requires post != [] && !IsUrlChar(post[0]) && 'h' !in post
    ensures ExtractSources(Https + post) == []
  {
    var t := Https + post;
    assert t[0..] == t && t[|Https|] == post[0];
    BareHttpsNoMatch(t, 0);
    forall p: nat | 0 < p < |t|
      ensures NoMatchAt(t, p)
    {
      if p < |Https| {
        assert Https[1..] == "ttps://";
        assert t[p] == Https[1..][p - 1];
      } else {
        assert t[p] == post[p - |Https|];
      }
      NoMatchOffH(t, p);
    }
    ExtractSourcesEmpty(t);
  }

  lemma BareSchemeBeforeSpace()
    ensures ExtractSources(Https + " x") == []
  {
    BareSchemeIgnored(" x");
  }

  /** The empty text has no sources. */
  lemma EmptyTextNoSources()
    ensures ExtractSources("") == []
  {
  }
}
