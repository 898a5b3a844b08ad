# temple: the directive engine, modelled in Dafny

temple is a static site generator. Page files (`pages/NN_name.md`, with an
optional `+++ ... +++` TOML front matter) and template files
(`templates/NAME.html`) contain directives written `{{ keyword args... }}`.
The builder loads every page, in file-name order. It resolves each page's
directives against the set of all pages and writes the result to the
page's output path.

This project models that engine in Dafny and proves properties of the model:

- `errors.dfy` (module `Errors`): the error enum, and the `Option` and
  `Result` wrappers.
- `text.dfy` (module `Text`): the pieces of Rust's `str` that the engine uses.
  These are `find` / `rfind` (first and last occurrence), `trim`
  (Unicode `White_Space` at both ends), `starts_with`, `join`, and a count of
  occurrences used for termination arguments.
- `parsing.dfy` (module `Parsing`): the directive scanner and parser
  (`src/template/parsing.rs`).
  - The `Template` variants and their keywords.
  - Splicing a span (`insert_between`, `remove_between`).
  - The quote-aware tokeniser. It is given as a token-by-token function and
    as the source's one-pass loop (`ParseTemplate`), which is proved equal to
    that function.
  - Keyword dispatch.
  - `find_next_template`, and the `find_template` loop. What `find_template`
    finds is stated on the text itself: the search passes a chain of `{{ … }}`
    spans of other kinds and stops at the first span of the kind sought.
- `render.dfy` (module `Rendering`): directives written in their plain form.
  Scanning and parsing a rendered directive gives back exactly its span and
  the directive. A rendered directive has the same whitespace padding on
  both sides of its inner text and single spaces between its words. This is
  the general form of the scanner and parser tests that write their
  directives unquoted in that form. Outside it are the tests with quoted
  arguments (`src/template/parsing.rs:193-200`, `256-264` and `345-350`) and
  the test with uneven padding and repeated spaces
  (`src/template/parsing.rs:251-254`).
- `page.dfy` (module `Pages`): `Page::read` once the file text is in hand.
  This covers the front-matter split, the `Config` record and the name
  choice (`page_name_from_path`).
- `resolver.dfy` (module `Resolver`): `apply_template`.
  - It is a fuel-bounded function (`Resolve` / `Run` / `Expand` /
    `Replacement`). It is also the source's loop (`ApplyTemplate`), proved
    equal to that function.
  - The `navitems` list is given both as a function and as the source's
    `for` loop. The function is pinned down as an order-keeping filter.
  - Lemmas state what resolution guarantees:
    - a finished result holds no `{{`;
    - fuel only bounds resolution;
    - a template whose first directive uses itself never finishes;
    - one rendered directive is replaced by its text;
    - the `extends` marker is the parent's `pagecontent` directive;
    - the exact and the shifted behaviour of the `extends` splice;
    - with no template files, resolution finishes when no other directive
      can bring in a `{`.
- `builder.dfy` (module `Builder`), the page-processing part of
  `Builder::build`:
  - sorting the directory entries by file name;
  - loading every page, where the first failure aborts the build;
  - resolving each page;
  - choosing its output path;
  - the per-page loop, which stops at the first page that fails.

Oracles. Template files are a map from name to text: a missing name is an
`IOError`. The TOML syntax parser, the process spawner of `exec` and the
local clock of `currentdate` are parameters of the model. They are
abstract functions, and only the code around them is modelled.

The model follows what the code does, where a looser reading would differ:

- Page names. `page_name_from_path` drops everything through the first `_`,
  whatever precedes it, and not only a prefix of digits.
- Trimming. `trim` is Rust's `str::trim`, which removes Unicode whitespace,
  while the tokeniser splits only on space, tab, CR and LF.
- Error names. Errors carry the code's names. The parser constructs
  `MissingArgument`, which the error enum declares as `ArgumentError`; the
  model has the single variant `MissingArgument(which)`.

## Model

| member | source | states |
|---|---|---|
| Parsing.Template.Index | src/template/parsing.rs:24-37 | every directive has one of the seven keywords |
| Parsing.Template.Id | src/template/parsing.rs:24-37 | `id()`: the keyword of each variant; `IndexMatchesId` and `Rendering.IdIndex` state what it determines |
| Parsing.KeywordIndexSpec | src/template/parsing.rs:147-165 | keyword lookup finds the token's keyword, and reports "none" exactly when the token is not a keyword |
| Parsing.KeywordIndex | src/template/parsing.rs:147-165 | which `match` arm a token selects, as its position among the seven keywords; `KeywordIndexSpec` states it |
| Parsing.IndexMatchesId | src/template/parsing.rs:24-37 | comparing `id()` with a target keyword is the same as comparing keyword positions |
| Parsing.Instance.InsertBetween | src/template/parsing.rs:48-50 | the result has the expected length, keeps the text before `start_pos`, then holds the inserted text, then the text after `end_pos` |
| Parsing.Instance.RemoveBetween | src/template/parsing.rs:52-54 | removing a span is inserting the empty text |
| Parsing.WordEnd | src/template/parsing.rs:121-133 | a run of non-separator, non-quote characters ends at the first separator or quote |
| Parsing.CloseQuote | src/template/parsing.rs:112-118 | a quoted run ends at the next occurrence of the same quote character |
| Parsing.TokenizeFrom | src/template/parsing.rs:107-143 | the tokeniser's only error is `UnclosedQuote` |
| Parsing.Tokenize | src/template/parsing.rs:107-143 | the tokens of a directive's inner text, scanned from its start; `TokenizeFrom`, `TokensNonEmpty` and the `WordRun`/`QuoteRun` lemmas state them |
| Parsing.TokensNonEmpty | src/template/parsing.rs:101-147 | a trimmed, non-empty text whose quotes close has a first token, so the `expect` cannot fire |
| Parsing.Dispatch | src/template/parsing.rs:147-166 | dispatch fails only with `UnknownTemplate` or `MissingArgument` |
| Parsing.DispatchCases | src/template/parsing.rs:147-166 | each keyword reads exactly its arguments (`name`; `command` plus all remaining tokens as `args`; an optional format); `UnknownTemplate(t)` occurs iff `t` is not a keyword; each `MissingArgument` occurs iff its argument is absent |
| Parsing.DispatchRead | src/template/parsing.rs:147-166 | the successful half of the dispatch cases |
| Parsing.DispatchErrors | src/template/parsing.rs:147-166 | the error half of the dispatch cases, both directions |
| Parsing.TemplateOf | src/template/parsing.rs:101-167 | `Empty` iff the trimmed inner text is empty; `UnclosedQuote` iff a quote stays open; otherwise the tokens are dispatched and the directive's tokens are a prefix of them |
| Parsing.TemplateOfTokens | src/template/parsing.rs:140-147 | a non-empty trimmed text that tokenises is dispatched on its tokens |
| Parsing.WordRunAtSeparator | src/template/parsing.rs:121-127 | a word run up to a separator is one token, and nothing when empty |
| Parsing.WordRunAtQuote | src/template/parsing.rs:128-131 | a word run ended by a quote is dropped |
| Parsing.QuoteRunAtClose | src/template/parsing.rs:112-118 | a quoted run is one verbatim token |
| Parsing.QuoteRunAtEnd | src/template/parsing.rs:136-138 | a quote never closed is `UnclosedQuote` |
| Parsing.ScanBegin | src/template/parsing.rs:107-109 | the loop starts in a state whose tokens are the text's tokens |
| Parsing.StepInQuote | src/template/parsing.rs:112-119 | inside a quote, the closing quote ends the token; any other character keeps the loop's state valid |
| Parsing.StepSeparator | src/template/parsing.rs:122-127 | a separator pushes a non-empty word and restarts the token |
| Parsing.StepOpenQuote | src/template/parsing.rs:128-131 | a quote opens a quoted token at the next character |
| Parsing.StepWord | src/template/parsing.rs:132 | any other character extends the word |
| Parsing.ScanEnd | src/template/parsing.rs:136-143 | after the loop, an open quote means `UnclosedQuote`; otherwise the tokens are the pushed ones plus the non-empty rest |
| Parsing.ScanChar | src/template/parsing.rs:111-134 | one pass of the `char_indices` loop keeps the loop invariant |
| Parsing.ParseTemplate | src/template/parsing.rs:101-167 | the imperative `parse_template` returns exactly `TemplateOf(inner)` |
| Parsing.FindPair | src/template/parsing.rs:58-66 | the first `{{` (or `}}`) at or after a position, or none at all |
| Parsing.FindPairAt | src/template/parsing.rs:58-66 | the search stops at the first pair |
| Parsing.SpanAt | src/template/parsing.rs:58-70 | where both searches stop, given the first `{{` and the first `}}` after it |
| Parsing.SpanNotUnclosed | src/template/parsing.rs:58-68 | a closed span excludes the unclosed case |
| Parsing.FindNextTemplate | src/template/parsing.rs:57-79 | a reported directive starts at `{{` and lies inside the text |
| Parsing.FindNextTemplateCases | src/template/parsing.rs:57-79 | `Ok(None)` iff there is no `{{`; `UnclosedTemplate` iff the first `{{` has no later `}}`; any other error is the parser's verdict on the first span |
| Parsing.FindNextTemplateFound | src/template/parsing.rs:57-79 | a reported directive is the first span: `{{` first occurs at `start_pos`; `end_pos` is the second `}` of the first `}}` after it; the directive is what the parser makes of the inner text |
| Parsing.FindNextTemplateAt | src/template/parsing.rs:66-78 | `find_next_template`, given both searches and the parse of the inner text |
| Parsing.FirstWithId | src/template/parsing.rs:81-99 | a directive found by `find_template` lies inside the text and has the requested `id()`; which directive it is, is `FirstWithIdSpec` |
| Parsing.FirstWithIdFromSpec | src/template/parsing.rs:85-96 | a directive found from an offset on starts at or after that offset, lies inside the text, and is of the kind sought; where it lies is `SearchFrom` |
| Parsing.FirstWithIdFrom | src/template/parsing.rs:85-98 | the `while let` loop over `offset` from a given offset on; `FirstWithIdFromSpec` and `SearchFrom` state it |
| Parsing.FirstWithIdAfter | src/template/parsing.rs:87-96 | one turn of that loop, once `find_next_template(&content[offset..])` is known: stop on an error or `None`, return a match shifted by `offset`, else resume at `offset + end_pos + 1`; `FirstWithIdAfterSpec` and `SearchAfter` state it |
| Parsing.FirstWithIdAfterSpec | src/template/parsing.rs:87-96 | the same, once the next directive is known |
| Parsing.PairsFrom | src/template/parsing.rs:87 | the `{{` and `}}` of `content[offset..]` are those of `content` from `offset` on, moved by `offset` |
| Parsing.SpanFrom | src/template/parsing.rs:87-92 | the first span of `content[offset..]`, moved by `offset`, is the first span of `content` from `offset` on, around the same inner text |
| Parsing.SpanParsesFrom | src/template/parsing.rs:87-92 | the same, carrying the parse of the inner text |
| Parsing.FoundFrom | src/template/parsing.rs:87-92 | a directive found in `content[offset..]`, with `offset` added to both positions, is the first span of `content` from `offset` on, and its inner text parses to it |
| Parsing.FoundSpan | src/template/parsing.rs:57-79 | the directive `find_next_template` reports is the first span of the text, and its inner text parses to it |
| Parsing.NoneFrom | src/template/parsing.rs:87-98 | no directive in `content[offset..]` means no `{{` in `content` from `offset` on |
| Parsing.SearchPathCons | src/template/parsing.rs:95 | passing one directive of another kind and then following a path is a path |
| Parsing.SearchFrom | src/template/parsing.rs:85-98 | the search from an offset visits a path of offsets: at each but the last it passes a directive of another kind and moves on to `offset + end_pos + 1`; at the last it stops with its answer (the scan's error, `None`, or the match with `offset` added) |
| Parsing.SearchAfter | src/template/parsing.rs:87-98 | the same, once the next directive is known |
| Parsing.SkipSpan | src/template/parsing.rs:87-95 | a directive the search passes is the first span from its offset on, parses to a directive of another kind, and the search resumes just past its `}}` |
| Parsing.PassedFound | src/template/parsing.rs:87-95 | the same, given the directive the scan reports |
| Parsing.StopSpan | src/template/parsing.rs:87-93 | the match the search stops with at an offset is the first span from that offset on, at its absolute positions, and its inner text parses to it |
| Parsing.FirstWithIdSpec | src/template/parsing.rs:81-99 | `find_template` follows a search path from offset 0; `None` means no `{{` is left where the path ends; a match has keyword `id` and is the first span from there on, with absolute positions, and its inner text parses to it |
| Parsing.FoundWithId | src/template/parsing.rs:81-99 | a directive `find_template` finds has keyword `id` and is the first span of the text from some offset on, whose inner text parses to it |
| Parsing.FoundWithIdAt | src/template/parsing.rs:81-99 | a found directive has `{{` at `start_pos`, `}}` ending at `end_pos`, and between them the text that parses to it |
| Parsing.FirstWithIdUnfold | src/template/parsing.rs:87 | an iteration scans the rest of the text from `offset` |
| Parsing.FirstWithIdStop | src/template/parsing.rs:87-94 | the search stops at a scan error, at the end of the directives (`None`), or at a match shifted by `offset` |
| Parsing.FirstWithIdSkip | src/template/parsing.rs:95 | skipping a directive of another kind to `offset + end_pos + 1` leaves the answer unchanged |
| Parsing.AfterSkip | src/template/parsing.rs:95 | a non-matching directive sends the search on past its span |
| Parsing.FindTemplate | src/template/parsing.rs:81-99 | the `while` loop over `offset` returns exactly the first directive with the requested `id()`, or the first error met |
| Rendering.IdIndex | src/template/parsing.rs:24-37 | no two keywords are spelled alike, so a directive's keyword maps back to it |
| Rendering.JoinedWords | src/template/parsing.rs:107-143 | plain words joined by spaces start and end with a plain character |
| Rendering.TokenizeLastWord | src/template/parsing.rs:140-143 | a trailing plain word is the last token |
| Rendering.AfterWordSpace | src/template/parsing.rs:122-127 | positions after a word and its separator |
| Rendering.TokenizeWordThen | src/template/parsing.rs:122-127 | a plain word followed by a space is one token ahead of the rest |
| Rendering.TokenizeWords | src/template/parsing.rs:107-143 | plain words separated by single spaces tokenise back to exactly those words |
| Rendering.DispatchUnparse | src/template/parsing.rs:147-166 | dispatching a directive's own tokens gives the directive back |
| Rendering.TemplateOfRendered | src/template/parsing.rs:245-265 | the inner text of a rendered plain directive, padded with whitespace, parses to the directive |
| Rendering.ScanBraced | src/template/parsing.rs:58-72 | both searches stop at a braced text without `}`, and delimit its inner text |
| Rendering.RenderedInner | src/template/parsing.rs:66 | a rendered directive's inner text holds no `}` |
| Rendering.FindBraced | src/template/parsing.rs:175-200 | `find_next_template` on `prefix + "{{" + inner + "}}" + suffix` (no `{` in `prefix`) reports `start_pos = |prefix|`, `end_pos = |prefix| + |inner| + 3` and the parsed directive |
| Pages.OptionalString | src/template/page.rs:62-66 | an optional string field is absent, a string, or an error, each iff the table says so |
| Pages.ConfigFromTable | src/template/page.rs:62-69 | the derived deserialiser succeeds iff every field has its type; `navignore` is true iff it is present and true |
| Pages.ParseConfig | src/template/page.rs:71-75 | a config parse fails only with `ConfigParseError`, and always does on text that is not TOML |
| Pages.SplitFrontMatter | src/template/page.rs:17-30 | splitting fails only with `UnclosedConfig` |
| Pages.SplitFrontMatterCases | src/template/page.rs:17-30 | no front matter iff the trimmed text does not start with `+++`; `UnclosedConfig` iff no `+++` follows the opening one; otherwise the trimmed text is `+++` config `+++` body, and the config text holds no `+++` and does not end in `+`, so the closing fence is the first `+++` after the opening one (with `FenceAfter`, both directions) |
| Pages.FenceAfter | src/template/page.rs:21 | the closing fence search finds the fence right after a config text that contains no `+++` and does not end in `+` |
| Pages.SplitFrontMatterJoin | src/template/page.rs:19-27 | front matter written between fences is split off exactly, and the body is not trimmed again |
| Pages.NameStart | src/template/page.rs:49-52 | the name starts just past the first `_`, or at 0 |
| Pages.NameEnd | src/template/page.rs:54-57 | the name ends at the last `.` after that start, or at the end |
| Pages.PageNameFromPath | src/template/page.rs:46-60 | `page_name_from_path` on a file name; `PageNameSlice` and `PageNamePlain` state it |
| Pages.PageNameSlice | src/template/page.rs:46-60 | the page name is the slice of the file name from just past its first `_` to its last `.` after that |
| Pages.PageNamePlain | src/template/page.rs:46-60 | a file name with neither `_` nor `.` is its own page name |
| Pages.ReadPage | src/template/page.rs:17-42 | loading fails only with `UnclosedConfig` or `ConfigParseError`; the name is the configured title when there is one, else the name from the file name |
| Pages.ReadPlainPage | src/template/page.rs:17-42 | a page without front matter is its trimmed text, named from its file name, with no config |
| Pages.ReadFrontMatterPage | src/template/page.rs:19-42 | a page with front matter loads as its body and the configuration the front matter describes |
| Pages.ReadPageErrors | src/template/page.rs:19-28 | `UnclosedConfig` and `ConfigParseError` each occur exactly under their condition |
| Text.Find | src/template/page.rs:21 | `find`: the first occurrence, and none iff the pattern does not occur |
| Text.IndexOf | src/template/page.rs:49 | `find` for a character: its first occurrence, none iff absent |
| Text.LastIndexOf | src/template/page.rs:54 | `rfind` for a character: its last occurrence, none iff absent |
| Text.Trim | src/template/mod.rs:74 | Rust's `str::trim`, never longer than its input; `TrimSpec` states the rest |
| Text.TrimSpec | src/template/page.rs:17 | `trim` returns the slice between the whitespace it removes at both ends, and neither starts nor ends with whitespace |
| Text.TrimPadded | src/template/parsing.rs:102 | trimming whitespace padding off a text that neither starts nor ends with whitespace gives the text |
| Resolver.TemplateContent | src/template/mod.rs:137-142 | a template read succeeds iff the template exists, and then gives its text; otherwise it is `IOError` |
| Resolver.Visible | src/template/mod.rs:94-97 | the pages `navitems` lists, in order; `VisibleSpec`, `VisibleAppend` and `VisibleSingle` state it |
| Resolver.NavIgnored | src/template/mod.rs:95 | a page with `navignore = true` in its config is skipped; `VisibleSingle` and `VisibleSpec` state its effect |
| Resolver.NavPath | src/template/mod.rs:98-102 | the link target: the configured `path`, or `/` and the page name; `LinksSpec` states its place in the link |
| Resolver.ActiveAttr | src/template/mod.rs:103 | ` class="active"` on the link to the page being built, else nothing; `LinksSpec` states its place in the link |
| Resolver.VisibleSpec | src/template/mod.rs:94-97 | a page is listed iff it is one of the pages and not marked `navignore`; there are no more entries than pages |
| Resolver.VisibleAppend | src/template/mod.rs:93-97 | the pages listed for a concatenation are those listed for each part, in turn, so the loop's order is kept |
| Resolver.VisibleSingle | src/template/mod.rs:94-97 | a single page is listed unless it is marked `navignore`; with `VisibleAppend` this determines the whole listing |
| Resolver.NavEntry | src/template/mod.rs:98-105 | the link `<a href="PATH"ATTR>NAME</a>` to one page; `LinksSpec` states its parts |
| Resolver.Links | src/template/mod.rs:98-105 | the links to a list of pages, in order; `LinksSpec` states them |
| Resolver.NavList | src/template/mod.rs:92-107 | the listed pages' links joined by newlines; `BuildNavList` and `NavListEmpty` state it |
| Resolver.LinksSpec | src/template/mod.rs:98-105 | the `i`-th link is `<a href="P"A>N</a>` for the `i`-th listed page |
| Resolver.NavListEmpty | src/template/mod.rs:93-107 | with every page ignored, `{{ navitems }}` stands for nothing |
| Resolver.BuildNavList | src/template/mod.rs:92-107 | the `for` loop builds exactly the links of the visible pages, joined by newlines |
| Resolver.Resolve | src/template/mod.rs:73-135 | `apply_template` as a fuel-bounded function on the trimmed content; `ApplyTemplate`, `ResolveDone`, `ResolveFuel` and `ResolveFlat` state it |
| Resolver.Run | src/template/mod.rs:76-134 | the `while let` loop as a function of the buffer; `RunDone`, `RunMono`, `RunPlain`, `RunUnclosed`, `RunRendered` and `RunFlat` state it |
| Resolver.Expand | src/template/mod.rs:77-131 | the buffer after one directive is dealt with; `ExpandDirective`, `ExpandReplaced`, `ExpandMono` and `FlatExpand` state it |
| Resolver.Replacement | src/template/mod.rs:86-129 | the text a directive other than `extends` stands for; `ReplacementMono`, `SelfUse` and `UseOutOfFuel` state it |
| Resolver.RunTurn | src/template/mod.rs:76-77 | each turn of the loop handles the first directive of the whole current buffer |
| Resolver.RunAfter | src/template/mod.rs:76-77 | one turn of the loop once the scan of the buffer is known: a scan error stops it, `None` returns the buffer, a directive is expanded; `RunAfterDone` and `RunAfterMono` state it |
| Resolver.Continue | src/template/mod.rs:77-131 | after a turn the loop re-scans the new buffer, or stops with the turn's error; `ContinueDone` and `ContinueMono` state it |
| Resolver.ApplyTemplate | src/template/mod.rs:73-135 | the imperative `apply_template` returns exactly `Resolve` |
| Resolver.RunLoop | src/template/mod.rs:76-134 | the `while let` loop on the trimmed content ends in the loop's outcome |
| Resolver.LoopBody | src/template/mod.rs:76-131 | one pass stops with the buffer, or the error, or goes on with the buffer that the directive produced |
| Resolver.DirectiveTurn | src/template/mod.rs:77-131 | the rest of a pass, once the directive is known |
| Resolver.ExpandDirective | src/template/mod.rs:77-131 | the `match` on the directive returns exactly `Expand` |
| Resolver.RunPlain | src/template/mod.rs:76-134 | a buffer with no `{{` is the result as it stands |
| Resolver.RunUnclosed | src/template/mod.rs:76 | an unclosed `{{` stops resolution with `UnclosedTemplate` |
| Resolver.RunDone | src/template/mod.rs:76-134 | the loop stops with a result only when no `{{` is left |
| Resolver.RunAfterDone | src/template/mod.rs:76-134 | the same, for one turn |
| Resolver.ContinueDone | src/template/mod.rs:76-134 | the same, for the loop after a turn |
| Resolver.ResolveDone | src/template/mod.rs:73-135 | a resolved page or template holds no `{{` |
| Resolver.RunMono | src/template/mod.rs:76-134 | a loop that finishes gives the same answer with more fuel |
| Resolver.RunAfterMono | src/template/mod.rs:76-131 | the same, for one turn |
| Resolver.ContinueMono | src/template/mod.rs:76-134 | the same, for the loop after a turn |
| Resolver.ExpandMono | src/template/mod.rs:77-131 | the same, for one directive |
| Resolver.ReplacementMono | src/template/mod.rs:86-129 | the same, for one replacement |
| Resolver.ResolveMono | src/template/mod.rs:73-135 | the same, for one resolution |
| Resolver.ResolveFuel | src/template/mod.rs:73-135 | a resolution that finishes gives the same answer with any larger fuel |
| Resolver.SelfUse | src/template/mod.rs:86-88 | a template whose first directive uses itself never finishes, whatever the fuel |
| Resolver.UseOutOfFuel | src/template/mod.rs:86-88 | a `use` whose template does not finish makes the turn not finish |
| Resolver.SpliceRendered | src/template/parsing.rs:48-50 | replacing the span right after `prefix` leaves `prefix` and `suffix` around the new text |
| Resolver.RunRendered | src/template/mod.rs:76-131 | a rendered directive (not `extends`) is replaced by the text it stands for, and the loop goes on; otherwise resolution fails as that directive does |
| Resolver.ExpandReplaced | src/template/mod.rs:86-129 | the same, for the turn on that directive |
| Resolver.SpliceExact | src/template/mod.rs:79-83 | when the parent template has no leading whitespace, the `pagecontent` splice cuts out exactly that directive |
| Resolver.SpliceShifted | src/template/mod.rs:81-83 | with `w` leading whitespace characters, the splice is `w` characters early, and the last `w` characters of the directive survive after the body |
| Resolver.ShiftedWindow | src/template/mod.rs:81-83 | the index arithmetic of the shifted splice |
| Resolver.ExtendsMarker | src/template/mod.rs:80-83 | the marker `extends` splices at is a `pagecontent` directive of the trimmed parent; without leading whitespace it is, at the same positions, a `{{ … }}` span of the parent itself whose inner text parses to `pagecontent` |
| Resolver.IsPageContent | src/template/parsing.rs:24-37 | only `PageContent` has the keyword `pagecontent` |
| Resolver.TrimFront | src/template/mod.rs:81 | the trimmed parent sits right after its leading whitespace |
| Resolver.SpanAtFront | src/template/mod.rs:81-83 | a directive of the trimmed text is, at the same positions, a directive of the untrimmed text when there is no leading whitespace |
| Resolver.SameSpan | src/template/parsing.rs:58-70 | two texts that agree on a span agree on its braces and its inner text |
| Resolver.CountSplice | src/template/parsing.rs:48-50 | replacing a span that starts with `{{` by text without `{` removes at least two `{` |
| Resolver.RunFlat | src/template/mod.rs:76-132 | with no template files, when no directive can bring in a `{`, the loop finishes within one more turn than the buffer has `{` |
| Resolver.FlatTurn | src/template/mod.rs:76-132 | the same, with no template files, for one turn |
| Resolver.FlatDirective | src/template/mod.rs:77-132 | the same, with no template files, for the turn on a directive |
| Resolver.FlatExpand | src/template/mod.rs:77-131 | with no template files and no `{` in the page name, the navigation list, any date or any command output, a directive fails or removes at least two `{` |
| Resolver.ResolveFlat | src/template/mod.rs:73-135 | with no template files and no `{` in the page name, the navigation list, any date or any command output, a page resolves within `Count('{') + 1` turns |
| Builder.NameLeTotal | src/template/mod.rs:42 | file names are totally ordered |
| Builder.NameLeAntisymmetric | src/template/mod.rs:42 | the order is antisymmetric |
| Builder.NameLeTransitive | src/template/mod.rs:42 | the order is transitive |
| Builder.NameLeReflexive | src/template/mod.rs:42 | the order is reflexive |
| Builder.Insert | src/template/mod.rs:42 | one insertion step of the sort by file name; it adds one entry, and `InsertSpec` states the rest |
| Builder.SortByName | src/template/mod.rs:40-42 | `sort_by_key` on file names, keeping the length; `SortByNameSpec` states the rest |
| Builder.InsertSpec | src/template/mod.rs:42 | inserting into a sorted list keeps it sorted, and adds exactly that entry |
| Builder.SortByNameSpec | src/template/mod.rs:40-42 | sorting orders the entries by file name and is a permutation of them |
| Builder.SortStep | src/template/mod.rs:42 | one insertion step of the sort |
| Builder.SortedPairwise | src/template/mod.rs:42 | in sorted entries, every name precedes every later name |
| Builder.LoadPages | src/template/mod.rs:44-47 | loading every entry in order, stopping at the first failure; `LoadPagesOk` and `LoadPagesErr` state it |
| Builder.LoadEntry | src/template/mod.rs:46 | `Page::read` on one entry: an unreadable file is `IOError` (the `?` at src/template/page.rs:15), otherwise `ReadPage` on its text; `LoadPagesOk` and `LoadPagesErr` state it |
| Builder.LoadPagesOk | src/template/mod.rs:44-47 | loading succeeds iff every entry loads, and then gives one page per entry, in order |
| Builder.LoadPagesErr | src/template/mod.rs:44-47 | a failed load has the error of the first entry that does not load |
| Builder.JoinPath | src/template/mod.rs:54-59 | an absolute path replaces the base; otherwise the result starts with the base and ends with the path |
| Builder.OutputPath | src/template/mod.rs:54-59 | the output path of a page; `OutputPathSpec` states it |
| Builder.OutputPathSpec | src/template/mod.rs:54-59 | a configured `output` is the path itself when absolute, else `target + "/" + output` (or `target + output` when `target` is empty or ends in `/`); otherwise the path ends in `index.html`, starts with `target` when the name is relative, and is `target + "/" + NAME + "/index.html"` when the name is relative and neither it nor `target` is empty or ends in `/` |
| Builder.WritesFrom | src/template/mod.rs:49-68 | the writes of the pages from the `i`-th on, or the first failure; `WritesFromBuilt`, `WritesFromDone` and `WritesFromStopped` state it |
| Builder.Build | src/template/mod.rs:33-70 | the build from the directory listing: sort, load, resolve and write each page; `BuildWrites` and `BuildFails` state it |
| Builder.Outcomes | src/template/mod.rs:49-52 | there is one outcome per page |
| Builder.OutcomesSpec | src/template/mod.rs:52 | each outcome is that page's content resolved against all the pages |
| Builder.WritesFromBuilt | src/template/mod.rs:49-68 | a successful build writes one file per page, in page order, each at the page's output path with its resolved text |
| Builder.WritesFromDone | src/template/mod.rs:49-68 | the writes succeed iff every page resolves |
| Builder.WritesFromStopped | src/template/mod.rs:52 | a failure stops at the first page that does not resolve, with its error |
| Builder.WrittenStep | src/template/mod.rs:54-67 | a page that resolved adds its file to what has been written |
| Builder.WrittenStop | src/template/mod.rs:52 | a page that did not resolve ends the build with its error |
| Builder.RenderPages | src/template/mod.rs:49-70 | the per-page loop gives exactly the writes of the resolved pages, or the first failure |
| Builder.PagesWritten | src/template/mod.rs:49-68 | each resolved page's text is written at its output path |
| Builder.BuildWrites | src/template/mod.rs:33-71 | a successful build writes one file per page file, in sorted order; each page is loaded from its file, resolved against all pages, and written at its output path |
| Builder.BuildFails | src/template/mod.rs:44-52 | a failed build has the error of the first file that does not load, or the error of a page that does not resolve |
| Builder.BuildSite | src/template/mod.rs:33-71 | the build once the directory is listed: it sorts, loads, then runs the per-page loop |

## Left out

- File-system effects of `build`: these are removing the target directory,
  copying `public`, creating output directories and writing files. The
  model returns the writes, in order, instead of performing them.
- Partial output on failure: `Builder.Build` returns the error alone. The
  source has already written the files of earlier pages by the time a page
  fails.
- Listing the pages directory: the listing is an input, a sequence of file
  names with their text. `None` stands for a file that cannot be read, and
  loading it gives `IOError`.
- `src/template/errors.rs`: the `io::Error` and `toml::de::Error` payloads.
  `IOError` and `ConfigParseError` carry no payload.
- TOML syntax: a parser from text to a table of top-level values is a
  parameter. Only the derived `Config` deserialiser is modelled.
- `exec`: process spawning, with lossy UTF-8 decoding of its output. This is
  a parameter, returning the exit status, standard output and standard error
  as text, or nothing when the process cannot start.
- `currentdate`: chrono formatting of the local clock. This is a parameter,
  from format to text.
- The clock and the process spawner are fixed for the whole build, because
  one `Resolver.Env` is shared by all pages. So a repeated
  `currentdate` with the same format, or a repeated `exec` of the same
  command, gives identical text everywhere in the build. The source asks the
  clock and spawns the process anew each time.
- Logging (`log::debug!`).
- Resolver.Resolve: unbounded recursion and looping are cut off by a fuel
  parameter. The way `OutOfFuel` is counted (one unit per loop turn and per
  nested resolution) has no counterpart in the source, which runs forever
  (or overflows its stack) in those cases.
- The system as a whole: positions are character indices, where Rust uses
  byte offsets. The two agree on ASCII text. A slice that would split a
  multi-byte character makes Rust panic; that case is not modelled.
- Builder.SortByName: the stability of `sort_by_key`, for equal file names,
  is not stated. File names in one directory are distinct.
- Builder.JoinPath: `Path::join` is modelled on `/`-separated strings, with
  no normalisation.
- `page_name_from_path`: the `file_name()` of a path. The model starts from
  the file name.
- The rest of the repository: the development server, the file watcher and
  the command-line front end.
