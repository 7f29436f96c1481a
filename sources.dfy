/** The URL scanner of the answer post-processor: `extract_sources` applies the
    pattern `https?://[^\s\]\)"]+` to a text with `re.findall`, which returns every
    match, left to right, without overlap.

    The model has three layers:
    - a declarative description of one match (`IsUrl`, `IsMatch`);
    - the scanner itself (`RunEnd`, `MatchAt`, `ScanFrom`, `ExtractSources`), written
      the way the regular-expression engine proceeds, and `FindAllUrls`, the same scan
      as a loop over an index;
    - a declarative description of what `findall` returns (`IsFindAll`), with lemmas
      proving that the scanner's result is the one and only list meeting it. */
module Sources {

  datatype Option<T> = None | Some(value: T)

  /** The two spellings the pattern's `https?://` admits. */
  const Http: string := "http://"
  const Https: string := "https://"

  /** Python's `\s` on a `str` pattern: the characters for which `str.isspace()` holds
      (ASCII space, `\t`, `\n`, `\v`, `\f`, `\r`, the separators 0x1C-0x1F and the
      Unicode space characters). */
  predicate IsWhitespace(c: char) {
    var n := c as int;
    n == 0x20 || 0x09 <= n <= 0x0D || 0x1C <= n <= 0x1F || n == 0x85 || n == 0xA0 ||
    n == 0x1680 || 0x2000 <= n <= 0x200A || n == 0x2028 || n == 0x2029 ||
    n == 0x202F || n == 0x205F || n == 0x3000
  }

  /** The character class `[^\s\]\)"]`. */
  predicate IsUrlChar(c: char) {
    !IsWhitespace(c) && c != ']' && c != ')' && c != '"'
  }

  /** A whole match of the pattern: `http://` or `https://`, then at least one more
      character, and no character outside the class (the scheme's own characters are
      all inside it). */
  predicate IsUrl(u: string) {
    (Http < u || Https < u) && forall k :: 0 <= k < |u| ==> IsUrlChar(u[k])
  }

  /** The pattern matches `text[i..e]` when scanning starts at `i`: a URL there that the
      greedy `+` cannot extend, because the text ends or the next character is outside
      the class. */
  ghost predicate IsMatch(text: string, i: nat, e: nat) {
    i < e <= |text| && IsUrl(text[i..e]) && (e == |text| || !IsUrlChar(text[e]))
  }

  ghost predicate NoMatchAt(text: string, p: nat) {
    forall e: nat :: !IsMatch(text, p, e)
  }

  /** Every character of both schemes is inside the class. */
  lemma SchemesAllowed()
    ensures forall k :: 0 <= k < |Http| ==> IsUrlChar(Http[k])
    ensures forall k :: 0 <= k < |Https| ==> IsUrlChar(Https[k])
  {
  }

  /** No text starts with both spellings: the fifth character is `:` in one and `s` in
      the other. */
  lemma SchemesExclusive(s: string)
    ensures !(Http <= s && Https <= s)
  {
    if Http <= s {
      assert s[4] == Http[4] != Https[4];
    }
  }

  /** Greedy extension of `[^\s\]\)"]+` from `j`: the end of the longest run of class
      characters starting there. */
  function RunEnd(text: string, j: nat): (e: nat)
    requires j <= |text|
    decreases |text| - j
    ensures j <= e <= |text|
    ensures forall k :: j <= k < e ==> IsUrlChar(text[k])
    ensures e == |text| || !IsUrlChar(text[e])
  {
    if j < |text| && IsUrlChar(text[j]) then RunEnd(text, j + 1) else j
  }

  /** A run of class characters from `j` to a position that stops it is the run
      `RunEnd` finds. */
  lemma RunEndUnique(text: string, j: nat, e: nat)
    requires j <= e <= |text|
    requires forall k :: j <= k < e ==> IsUrlChar(text[k])
    requires e == |text| || !IsUrlChar(text[e])
    ensures RunEnd(text, j) == e
  {
  }

  /** `scheme` is written at `i` and followed by a character of the class: the part
      of the pattern before the greedy extension succeeds with that spelling. */
  predicate SchemeAt(text: string, i: nat, scheme: string)
    requires i <= |text|
  {
    scheme <= text[i..] && i + |scheme| < |text| && IsUrlChar(text[i + |scheme|])
  }

  /** The engine's attempt at position `i`. `s?` is greedy, so `https://` is tried
      first; when the character after it is not in the class, the engine backtracks to
      the alternative without `s`, which needs `http://` at `i`. The result is the end
      of the match, or None when the attempt fails. */
  function MatchAt(text: string, i: nat): (m: Option<nat>)
    requires i <= |text|
    ensures m.Some? ==> IsMatch(text, i, m.value)
    ensures m.Some? <==> !NoMatchAt(text, i)
  {
    if SchemeAt(text, i, Https) then
      MatchAtSound(text, i, Https);
      Some(RunEnd(text, i + |Https|))
    else if SchemeAt(text, i, Http) then
      MatchAtSound(text, i, Http);
      Some(RunEnd(text, i + |Http|))
    else
      MatchAtComplete(text, i);
      None
  }

  /** A spelling of the scheme at `i` followed by a class character, extended
      greedily, is a match. */
  lemma MatchAtSound(text: string, i: nat, scheme: string)
    requires i <= |text|
    requires scheme == Http || scheme == Https
    requires SchemeAt(text, i, scheme)
    ensures IsMatch(text, i, RunEnd(text, i + |scheme|))
  {
    SchemesAllowed();
    var e := RunEnd(text, i + |scheme|);
    var u := text[i..e];
    var n := |scheme|;
    assert u[..n] == text[i..][..n] == scheme;
    assert scheme < u;
    forall k | 0 <= k < |u|
      ensures IsUrlChar(u[k])
    {
      if k < n {
        assert u[k] == scheme[k];
      } else {
        assert u[k] == text[i + k];
      }
    }
  }

  /** Every match at `i` starts with a spelling of the scheme followed by a class
      character. */
  lemma MatchHasScheme(text: string, i: nat, e: nat)
    requires IsMatch(text, i, e)
    ensures SchemeAt(text, i, Https) || SchemeAt(text, i, Http)
  {
    var u := text[i..e];
    var scheme := if Https < u then Https else Http;
    var n := |scheme|;
    assert text[i..][..n] == u[..n] == scheme;
    assert text[i + n] == u[n];
    assert SchemeAt(text, i, scheme);
  }

  /** When neither spelling is at `i` followed by a class character, no match starts at
      `i`. */
  lemma MatchAtComplete(text: string, i: nat)
    requires i <= |text|
    requires !SchemeAt(text, i, Https) && !SchemeAt(text, i, Http)
    ensures NoMatchAt(text, i)
  {
    forall e: nat
      ensures !IsMatch(text, i, e)
    {
      if IsMatch(text, i, e) {
        MatchHasScheme(text, i, e);
      }
    }
  }

  /** `https://` at `i` with nothing of the class after it: the attempt with `s` fails,
      and backtracking to the spelling without `s` cannot succeed either, because that
      spelling needs `:` where the text has `s`. */
  lemma BareHttpsNoMatch(text: string, i: nat)
    requires i <= |text| && Https <= text[i..]
    requires i + |Https| == |text| || !IsUrlChar(text[i + |Https|])
    ensures NoMatchAt(text, i)
  {
    assert MatchAt(text, i).None? by {
      SchemesExclusive(text[i..]);
    }
  }

  /** A match found at `i` is the only one: the pattern cannot match two different
      lengths at one position. */
  lemma IsMatchUnique(text: string, i: nat, e: nat)
    requires IsMatch(text, i, e)
    ensures MatchAt(text, i) == Some(e)
  {
  }

  /** One match of the pattern: its position in the text and the position just after it. */
  datatype Span = Span(start: nat, end: nat)

  /** `re.findall` from position `i`: an attempt at `i`; after a match the scan resumes
      where the match ended, after a failed attempt one position further on. The pattern
      never matches the empty string, so the attempt at the end of the text fails. */
  function ScanFrom(text: string, i: nat): (spans: seq<Span>)
    requires i <= |text|
    decreases |text| - i
    ensures forall k :: 0 <= k < |spans| ==> i <= spans[k].start < spans[k].end <= |text|
  {
    if i == |text| then []
    else
      match MatchAt(text, i)
      case Some(e) => [Span(i, e)] + ScanFrom(text, e)
      case None => ScanFrom(text, i + 1)
  }

  ghost predicate InBounds(text: string, spans: seq<Span>) {
    forall k :: 0 <= k < |spans| ==> spans[k].start <= spans[k].end <= |text|
  }

  /** The matched substrings of `text`, in the order of `spans`. */
  function Substrings(text: string, spans: seq<Span>): (subs: seq<string>)
    requires InBounds(text, spans)
    ensures |subs| == |spans|
    ensures forall k :: 0 <= k < |spans| ==> subs[k] == text[spans[k].start..spans[k].end]
  {
    if spans == [] then [] else [text[spans[0].start..spans[0].end]] + Substrings(text, spans[1..])
  }

  /** The substrings the scan matches from position `i` on. */
  function SourcesFrom(text: string, i: nat): (subs: seq<string>)
    requires i <= |text|
  {
    Substrings(text, ScanFrom(text, i))
  }

  /** `extract_sources(text)`: every substring of `text` the scan matches, in order.
      Each is a URL in the pattern's sense: it starts with `http://` or `https://`, has
      at least one character after the `://`, and holds no whitespace, `]`, `)` or `"`. */
  function ExtractSources(text: string): (urls: seq<string>)
    ensures forall k :: 0 <= k < |urls| ==> IsUrl(urls[k])
  {
    FoundAreUrls(text, 0);
    SourcesFrom(text, 0)
  }

  // ---------------------------------------------------------------------------------
  // What `findall` returns, stated without the scanner

  /** The stretch of text searched before the `k`-th match: from the scan's start, or
      from the end of the previous match. */
  function GapStart(i: nat, spans: seq<Span>, k: nat): (p: nat)
    requires k <= |spans|
  {
    if k == 0 then i else spans[k - 1].end
  }

  /** Where that stretch stops: at the `k`-th match, or at the end of the text. */
  function GapEnd(text: string, spans: seq<Span>, k: nat): (p: nat)
    requires k <= |spans|
  {
    if k == |spans| then |text| else spans[k].start
  }

  ghost predicate NoMatchBetween(text: string, lo: nat, hi: nat) {
    forall p :: lo <= p < hi ==> NoMatchAt(text, p)
  }

  /** `spans` is what a left-to-right, non-overlapping search from `i` finds: each span
      is a match that starts no earlier than the end of the one before it, and no match
      starts anywhere in the stretches the search passes over between them. */
  ghost predicate IsFindAll(text: string, i: nat, spans: seq<Span>) {
    i <= |text| &&
    (forall k :: 0 <= k < |spans| ==>
      GapStart(i, spans, k) <= spans[k].start && IsMatch(text, spans[k].start, spans[k].end)) &&
    (forall k :: 0 <= k <= |spans| ==> NoMatchBetween(text, GapStart(i, spans, k), GapEnd(text, spans, k)))
  }

  /** A match at `i` followed by what `findall` finds from its end is what `findall`
      finds from `i`; and conversely. */
  lemma FindAllCons(text: string, i: nat, e: nat, rest: seq<Span>)
    requires IsMatch(text, i, e)
    ensures IsFindAll(text, e, rest) <==> IsFindAll(text, i, [Span(i, e)] + rest)
  {
    var spans := [Span(i, e)] + rest;
    forall k | 0 < k <= |spans|
      ensures GapStart(i, spans, k) == GapStart(e, rest, k - 1)
      ensures GapEnd(text, spans, k) == GapEnd(text, rest, k - 1)
      ensures k < |spans| ==> spans[k] == rest[k - 1]
    {
    }
    assert GapStart(i, spans, 0) == GapEnd(text, spans, 0) == i;
    if IsFindAll(text, e, rest) {
      forall k | 0 <= k < |spans|
        ensures GapStart(i, spans, k) <= spans[k].start && IsMatch(text, spans[k].start, spans[k].end)
      {
        if k > 0 {
          assert spans[k] == rest[k - 1];
        }
      }
      forall k | 0 <= k <= |spans|
        ensures NoMatchBetween(text, GapStart(i, spans, k), GapEnd(text, spans, k))
      {
        if k > 0 {
          assert NoMatchBetween(text, GapStart(e, rest, k - 1), GapEnd(text, rest, k - 1));
        }
      }
    }
    if IsFindAll(text, i, spans) {
      forall k | 0 <= k < |rest|
        ensures GapStart(e, rest, k) <= rest[k].start && IsMatch(text, rest[k].start, rest[k].end)
      {
        assert GapStart(i, spans, k + 1) <= spans[k + 1].start;
      }
      forall k | 0 <= k <= |rest|
        ensures NoMatchBetween(text, GapStart(e, rest, k), GapEnd(text, rest, k))
      {
        assert NoMatchBetween(text, GapStart(i, spans, k + 1), GapEnd(text, spans, k + 1));
      }
    }
  }

  /** Where no match starts at `i`, `findall` from `i` and from `i + 1` agree. */
  lemma FindAllSkip(text: string, i: nat, spans: seq<Span>)
    requires i < |text| && NoMatchAt(text, i)
    ensures IsFindAll(text, i + 1, spans) <==> IsFindAll(text, i, spans)
  {
    if IsFindAll(text, i, spans) {
      if spans != [] {
        assert IsMatch(text, spans[0].start, spans[0].end);
        assert spans[0].start != i;
      }
      forall k | 0 <= k <= |spans|
        ensures NoMatchBetween(text, GapStart(i + 1, spans, k), GapEnd(text, spans, k))
      {
        assert NoMatchBetween(text, GapStart(i, spans, k), GapEnd(text, spans, k));
      }
    }
    if IsFindAll(text, i + 1, spans) {
      forall k | 0 <= k <= |spans|
        ensures NoMatchBetween(text, GapStart(i, spans, k), GapEnd(text, spans, k))
      {
        assert NoMatchBetween(text, GapStart(i + 1, spans, k), GapEnd(text, spans, k));
      }
    }
  }

  /** The scan from `i` finds exactly what `findall` describes. */
  lemma {:induction false} ScanFromIsFindAll(text: string, i: nat)
    requires i <= |text|
    ensures IsFindAll(text, i, ScanFrom(text, i))
    decreases |text| - i
  {
    if i == |text| {
      assert GapStart(i, [], 0) == GapEnd(text, [], 0) == i;
    } else {
      var m := MatchAt(text, i);
      if m.Some? {
        var e := m.value;
        assert ScanFrom(text, i) == [Span(i, e)] + ScanFrom(text, e);
        ScanFromIsFindAll(text, e);
        FindAllCons(text, i, e, ScanFrom(text, e));
      } else {
        assert ScanFrom(text, i) == ScanFrom(text, i + 1);
        ScanFromIsFindAll(text, i + 1);
        FindAllSkip(text, i, ScanFrom(text, i + 1));
      }
    }
  }

  /** Only the scan's result meets that description: `findall` is determined by the
      text and the starting position. */
  lemma {:induction false} FindAllUnique(text: string, i: nat, spans: seq<Span>)
    requires IsFindAll(text, i, spans)
    ensures spans == ScanFrom(text, i)
    decreases |text| - i
  {
    if i == |text| {
    } else if spans != [] && spans[0].start == i {
      var e := spans[0].end;
      FindAllHead(text, i, spans);
      FindAllUnique(text, e, spans[1..]);
      assert ScanFrom(text, i) == [Span(i, e)] + ScanFrom(text, e);
      assert spans == [Span(i, e)] + spans[1..];
    } else {
      FindAllPass(text, i, spans);
      FindAllUnique(text, i + 1, spans);
      assert ScanFrom(text, i) == ScanFrom(text, i + 1);
    }
  }

  /** A `findall` result from `i` whose first span starts at `i` begins with the
      engine's match at `i`, and its rest is a `findall` result from that match's end. */
  lemma FindAllHead(text: string, i: nat, spans: seq<Span>)
    requires IsFindAll(text, i, spans) && spans != [] && spans[0].start == i
    ensures MatchAt(text, i) == Some(spans[0].end)
    ensures IsFindAll(text, spans[0].end, spans[1..])
  {
    assert IsMatch(text, i, spans[0].end) by {
      assert GapStart(i, spans, 0) <= spans[0].start;
    }
    FindAllConsHead(text, i, spans);
    IsMatchUnique(text, i, spans[0].end);
  }

  /** `FindAllCons` for a list whose first span is the match at `i`. */
  lemma FindAllConsHead(text: string, i: nat, spans: seq<Span>)
    requires spans != [] && spans[0].start == i && IsMatch(text, i, spans[0].end)
    ensures IsFindAll(text, spans[0].end, spans[1..]) <==> IsFindAll(text, i, spans)
  {
    assert spans == [Span(i, spans[0].end)] + spans[1..];
    FindAllCons(text, i, spans[0].end, spans[1..]);
  }

  /** A `findall` result from `i` whose first span does not start at `i`: no match
      starts at `i`, and the same spans are the `findall` result from `i + 1`. */
  lemma FindAllPass(text: string, i: nat, spans: seq<Span>)
    requires IsFindAll(text, i, spans) && i < |text|
    requires spans == [] || spans[0].start != i
    ensures NoMatchAt(text, i)
    ensures IsFindAll(text, i + 1, spans)
  {
    assert NoMatchBetween(text, GapStart(i, spans, 0), GapEnd(text, spans, 0));
    FindAllSkip(text, i, spans);
  }

  /** Each span is non-empty and starts no earlier than the previous one ends. */
  ghost predicate Chained(i: nat, spans: seq<Span>) {
    forall k {:trigger GapStart(i, spans, k)} :: 0 <= k < |spans| ==>
      GapStart(i, spans, k) <= spans[k].start < spans[k].end
  }

  lemma FindAllChained(text: string, i: nat, spans: seq<Span>)
    requires IsFindAll(text, i, spans)
    ensures Chained(i, spans)
  {
  }

  /** In a chained list of spans no two overlap, and they come in increasing order. */
  lemma {:induction false} ChainedOrdered(i: nat, spans: seq<Span>, k: nat, l: nat)
    requires Chained(i, spans)
    requires k < l < |spans|
    ensures spans[k].start < spans[k].end <= spans[l].start
    decreases l - k
  {
    assert GapStart(i, spans, l) == spans[l - 1].end;
    assert GapStart(i, spans, l - 1) <= spans[l - 1].start;
    if k < l - 1 {
      ChainedOrdered(i, spans, k, l - 1);
    }
  }

  // ---------------------------------------------------------------------------------
  // Properties of `extract_sources`

  /** `extract_sources` returns the substrings that `findall` describes and nothing
      else: for any list of spans meeting that description, the result is the text of
      those spans, in their order. */
  lemma ExtractSourcesCharacterized(text: string, spans: seq<Span>)
    requires IsFindAll(text, 0, spans)
    ensures InBounds(text, spans) && ExtractSources(text) == Substrings(text, spans)
  {
    FindAllUnique(text, 0, spans);
  }

  /** Every substring the scan finds is a URL in the pattern's sense. */
  lemma FoundAreUrls(text: string, i: nat)
    requires i <= |text|
    ensures forall k :: 0 <= k < |SourcesFrom(text, i)| ==> IsUrl(SourcesFrom(text, i)[k])
  {
    var spans := ScanFrom(text, i);
    ScanFromIsFindAll(text, i);
    forall k | 0 <= k < |spans|
      ensures IsUrl(SourcesFrom(text, i)[k])
    {
      assert IsMatch(text, spans[k].start, spans[k].end);
    }
  }

  /** Each returned string is the substring of the text between the bounds of a match,
      the match cannot be extended (the text ends after it or the next character is
      whitespace, `]`, `)` or `"`), and the matches come in increasing order of position
      without overlapping, so duplicates are kept. */
  lemma ExtractSourcesInText(text: string)
    ensures var spans, urls := ScanFrom(text, 0), ExtractSources(text);
      |urls| == |spans| &&
      (forall k :: 0 <= k < |spans| ==>
        spans[k].start < spans[k].end <= |text| &&
        urls[k] == text[spans[k].start..spans[k].end] &&
        (spans[k].end == |text| || !IsUrlChar(text[spans[k].end]))) &&
      (forall k, l :: 0 <= k < l < |spans| ==> spans[k].end <= spans[l].start)
  {
    var spans := ScanFrom(text, 0);
    ScanFromIsFindAll(text, 0);
    forall k | 0 <= k < |spans|
      ensures spans[k].end == |text| || !IsUrlChar(text[spans[k].end])
    {
      assert IsMatch(text, spans[k].start, spans[k].end);
    }
    FindAllChained(text, 0, spans);
    forall k, l | 0 <= k < l < |spans|
      ensures spans[k].end <= spans[l].start
    {
      ChainedOrdered(0, spans, k, l);
    }
  }

  /** The result is empty exactly when the pattern matches at no position of the text. */
  lemma ExtractSourcesEmpty(text: string)
    ensures ExtractSources(text) == [] <==> NoMatchBetween(text, 0, |text|)
  {
    var spans := ScanFrom(text, 0);
    ScanFromIsFindAll(text, 0);
    if spans == [] {
      assert NoMatchBetween(text, GapStart(0, spans, 0), GapEnd(text, spans, 0));
    }
    if NoMatchBetween(text, 0, |text|) {
      var none: seq<Span> := [];
      assert GapStart(0, none, 0) == 0 && GapEnd(text, none, 0) == |text|;
      assert IsFindAll(text, 0, none);
      FindAllUnique(text, 0, none);
    }
  }

  // ---------------------------------------------------------------------------------
  // The scan as a loop over an index

  /** One attempt of the engine at `i`, with the greedy extension done by a loop. */
  method MatchEnd(text: string, i: nat) returns (m: Option<nat>)
    requires i <= |text|
    ensures m == MatchAt(text, i)
  {
    var n := 0;
    if SchemeAt(text, i, Https) {
      n := |Https|;
    } else if SchemeAt(text, i, Http) {
      n := |Http|;
    }
    if n == 0 {
      return None;
    }
    var j := i + n;
    while j < |text| && IsUrlChar(text[j])
      invariant i + n <= j <= |text|
      invariant RunEnd(text, j) == RunEnd(text, i + n)
      decreases |text| - j
    {
      j := j + 1;
    }
    return Some(j);
  }

  /** One step of the scan, on the returned substrings: a match at `i` comes first,
      followed by what the scan finds from its end. */
  lemma ScanStepMatch(text: string, i: nat, e: nat)
    requires i < |text| && MatchAt(text, i) == Some(e)
    ensures i < e <= |text|
    ensures SourcesFrom(text, i) == [text[i..e]] + SourcesFrom(text, e)
  {
  }

  /** After a failed attempt at `i`, the scan continues at `i + 1`. */
  lemma ScanStepNoMatch(text: string, i: nat)
    requires i < |text| && MatchAt(text, i).None?
    ensures SourcesFrom(text, i) == SourcesFrom(text, i + 1)
  {
  }

  /** `extract_sources` as the engine runs it: attempt a match at the current index,
      keep it and jump to its end, or step one character on. */
  method FindAllUrls(text: string) returns (urls: seq<string>)
    ensures urls == ExtractSources(text)
  {
    urls := [];
    var i := 0;
    while i < |text|
      invariant i <= |text|
      invariant urls + SourcesFrom(text, i) == ExtractSources(text)
      decreases |text| - i
    {
      var m := MatchEnd(text, i);
      if m.Some? {
        var e := m.value;
        ScanStepMatch(text, i, e);
        var u := text[i..e];
        ghost var rest := SourcesFrom(text, e);
        assert (urls + [u]) + rest == urls + ([u] + rest);
        urls := urls + [u];
        i := e;
      } else {
        ScanStepNoMatch(text, i);
        i := i + 1;
      }
    }
  }
}
