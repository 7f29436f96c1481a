# Web research agent: source extraction

The research agent sends a question to a hosted language-model agent. It receives a
free-text answer and returns a dictionary with the answer, the `sources` (the URLs
written in that answer) and a fixed confidence. This project models the part of that
pipeline that has logic of its own:

- `extract_sources(text)` in `agent_core.py` applies the pattern
  `https?://[^\s\]\)"]+` with Python's `re.findall`. The scan runs left to right. At
  each position it tries `https://`, and otherwise `http://`. The scheme must be
  followed by at least one character that is not whitespace, `]`, `)` or `"`. The
  match then runs greedily up to the next such character or the end of the text.
  After a match the scan resumes at its end; after a failed attempt it moves one
  character on.
- `run_with_logging` in `agent_core.py` passes the agent's raw answer through
  unchanged and sets `sources` to `extract_sources` of it.

Files:

- `sources.dfy`, module `Sources`:
  - the character class: `IsWhitespace` follows Python's `str.isspace` table, and
    `IsUrlChar` is the class itself;
  - a declarative description of one match (`IsUrl`, `IsMatch`);
  - the engine (`RunEnd`, `MatchAt`, `ScanFrom`, `ExtractSources`);
  - a declarative description of what `findall` returns (`IsFindAll`: each span a
    match, spans in order without overlap, no match starting in the stretches
    skipped between them), with proofs that the engine's result is the one list
    meeting it;
  - the same scan written as index loops (`MatchEnd`, `FindAllUrls`), proved equal
    to `ExtractSources`.
- `sources_examples.dfy`, module `SourcesExamples`: worked inputs, derived from the
  declarative description.
- `agent_core.dfy`, module `AgentCore`: the `answer` and `sources` entries of
  `run_with_logging`'s result.

Where the system's written specification and the code differ, the model follows the
code:

- The specification describes the URL body as "non-whitespace, non-bracket,
  non-quote" characters. The class in the code excludes only `]`, `)` and `"`, so
  `[`, `(` and the single quote `'` are kept inside a URL.
- The specification's façade catches every failure, a timeout included, and returns
  a uniform result with empty `sources` and zero confidence. `run_with_logging`
  catches nothing, so an exception from the agent propagates. It does not check for an
  empty question either; the page does that before calling the agent (app.py:44).
- The specification says a persistence failure must not hide a successful answer.
  In the code, `log_to_csv` runs before the `return` without a guard, so an error
  while opening or writing the log file propagates and the answer is lost.

## Model

| member | source | states |
|---|---|---|
| `Sources.IsWhitespace` | agent_core.py:53 | Python's `\s` for a `str` pattern: the characters for which `str.isspace()` holds |
| `Sources.IsUrlChar` | agent_core.py:53 | the class `[^\s\]\)"]`: not whitespace, `]`, `)` or `"` |
| `Sources.IsUrl` | agent_core.py:53 | a string the whole pattern matches: `http://` or `https://` followed by at least one class character, and only class characters after the scheme |
| `Sources.IsMatch` | agent_core.py:53 | a match at `i` ending at `e`: the text between is a URL in that sense, and the text ends at `e` or continues with a character outside the class, so the greedy run cannot go further |
| `Sources.SchemeAt` | agent_core.py:53 | a spelling of the scheme written at `i` and followed by a class character |
| `Sources.RunEnd` | agent_core.py:53 | the greedy `[^\s\]\)"]+` from `j` ends at `e` where every character in between is allowed and the text ends or the character at `e` is whitespace, `]`, `)` or `"` |
| `Sources.SchemesExclusive` | agent_core.py:53 | no text starts with both `http://` and `https://` |
| `Sources.RunEndUnique` | agent_core.py:53 | a run of allowed characters from `j` that cannot be extended is the run `RunEnd` finds |
| `Sources.MatchAt` | agent_core.py:53 | the attempt at `i` (`https` tried before `http`) returns an end exactly when some match starts at `i`, and that end gives a match: a URL that cannot be extended |
| `Sources.MatchAtSound` | agent_core.py:53 | a spelling of the scheme followed by a class character, extended greedily, is a match |
| `Sources.MatchHasScheme` | agent_core.py:53 | every match at `i` starts with a spelling of the scheme followed by a class character |
| `Sources.MatchAtComplete` | agent_core.py:53 | when neither spelling is followed by a class character at `i`, no match starts at `i` |
| `Sources.BareHttpsNoMatch` | agent_core.py:53 | `https://` at `i` with the end of the text or a character outside the class after it: no match starts at `i`, because backtracking to `http` meets `s` where it needs `:` |
| `Sources.IsMatchUnique` | agent_core.py:53 | every match starting at `i` is the one `MatchAt` returns; the pattern matches at most one length at each position |
| `Sources.ScanFrom` | agent_core.py:54 | every span the scan from `i` finds is non-empty and lies between `i` and the end of the text |
| `Sources.Substrings` | agent_core.py:54 | one returned string per span, each the text between the span's bounds |
| `Sources.IsFindAll` | agent_core.py:54 | leftmost, non-overlapping matches from `i`: each span a match starting no earlier than the previous one ends, with no match starting in a stretch passed over |
| `Sources.FindAllCons` | agent_core.py:54 | a match at `i` followed by a valid `findall` result from its end is a valid `findall` result from `i`, and conversely |
| `Sources.FindAllSkip` | agent_core.py:54 | where no match starts at `i`, the valid `findall` results from `i` and from `i + 1` are the same |
| `Sources.ScanFromIsFindAll` | agent_core.py:54 | the scan's spans are matches in increasing, non-overlapping order, and no match starts in any stretch the scan skips |
| `Sources.FindAllUnique` | agent_core.py:54 | any list of spans meeting the `findall` description is exactly the scan's result |
| `Sources.FindAllHead` | agent_core.py:54 | in a `findall` result whose first span starts at `i`, that span ends where the engine's attempt at `i` ends, and the rest is the `findall` result from there |
| `Sources.FindAllPass` | agent_core.py:54 | in a `findall` result whose first span does not start at `i`, no match starts at `i`, and the same spans are the `findall` result from `i + 1` |
| `Sources.ChainedOrdered` | agent_core.py:54 | in a `findall` result, every earlier span ends no later than any later span starts |
| `Sources.FoundAreUrls` | agent_core.py:53-54 | every substring the scan from `i` finds is a URL in the pattern's sense |
| `Sources.ExtractSources` | agent_core.py:52-54 | the substrings the scan matches from the start of the text; every one starts with `http://` or `https://`, has at least one character after `://`, and contains no whitespace, `]`, `)` or `"` |
| `Sources.ExtractSourcesCharacterized` | agent_core.py:52-54 | `extract_sources` returns exactly the texts of the spans that `findall` describes, in their order |
| `Sources.ExtractSourcesInText` | agent_core.py:53-54 | each returned string is the substring of the text at its span; the text ends after it or continues with whitespace, `]`, `)` or `"`; spans are in increasing order and do not overlap |
| `Sources.ExtractSourcesEmpty` | agent_core.py:52-54 | the result is empty if and only if no match starts at any position of the text |
| `Sources.ScanStepMatch` | agent_core.py:54 | after a match at `i`, the result is that match followed by the result of scanning from the match's end |
| `Sources.ScanStepNoMatch` | agent_core.py:54 | after a failed attempt at `i`, the result is that of the scan from `i + 1` |
| `Sources.MatchEnd` | agent_core.py:53 | the loop that extends the match character by character returns the same end as `MatchAt` |
| `Sources.FindAllUrls` | agent_core.py:52-54 | the index loop (attempt, keep the match and jump to its end, or step one on) returns exactly `ExtractSources(text)` |
| `SourcesExamples.OneUrlInProse` | agent_core.py:52-54 | prose without `h` around one URL that is closed by a disallowed character or the end of the text yields exactly that URL |
| `SourcesExamples.TwoUrlsInProse` | agent_core.py:52-54 | two URLs separated by prose without `h` that starts with a disallowed character yield both URLs, in order |
| `SourcesExamples.TwoUrlsInOrder` | agent_core.py:52-54 | `See https://example.com/a and https://example.com/b` yields the two URLs in that order |
| `SourcesExamples.ParenthesisStopsFullStopKept` | agent_core.py:53 | in `(see http://a.io/x.)` the `)` ends the URL and the trailing `.` stays in it |
| `SourcesExamples.DuplicatesKept` | agent_core.py:54 | `http://a http://a` yields `http://a` twice |
| `SourcesExamples.BareSchemeIgnored` | agent_core.py:53 | `https://` followed by a disallowed character and prose without `h` yields nothing |
| `SourcesExamples.BareSchemeBeforeSpace` | agent_core.py:53 | `https:// x` yields nothing |
| `SourcesExamples.EmptyTextNoSources` | agent_core.py:52-54 | the empty text yields no sources |
| `AgentCore.RunWithLogging` | agent_core.py:57-69 | the result's `answer` is the raw answer unchanged; its `sources` are `extract_sources` of it, each a URL that occurs in the answer; `sources` is empty exactly when no match starts anywhere in the answer |

## Left out

- `create_agent` (agent_core.py:16-40) and `agent.run` only assemble and call the
  LangChain, Gemini and DuckDuckGo libraries. The raw answer is a parameter of
  `RunWithLogging` instead.
- `RunWithLogging` does not model an exception raised by `agent.run`, which propagates
  to the caller unchanged.
- `RunWithLogging` does not model an exception raised by `log_to_csv` (agent_core.py:63)
  when the log file cannot be opened or written. It propagates and discards the result,
  while the model always returns a `Response`.
- `log_to_csv` (agent_core.py:43-49) is a file append with a wall-clock timestamp. Its
  header-if-new-file choice depends on the file system. When it returns normally, it
  does not change the returned value.
- The `confidence` entry of the result (agent_core.py:61) is the floating-point
  constant 0.9, the fixed-constant policy the specification allows, and is not part
  of `Response`.
- A Python `str` can hold lone surrogate code points, which the class treats as URL
  characters. Dafny's `char` cannot represent them, so texts containing them are
  outside the model.
- `IsWhitespace` follows the whitespace table of Python's `str.isspace`. A different
  Unicode database version could add or remove characters from it.
- `history.py` (SQLite storage), `app.py` (Streamlit page, Auth0 login, session
  state) and `agent.py` (command-line prompt) are storage and presentation only, and
  are not part of this model. The storage's ordering and its idempotent table creation
  are done by the database engine.
