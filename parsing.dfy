/**
 * The directive scanner and parser: finding the first `{{ ... }}` span in a
 * buffer, tokenising its inner text with quotes, mapping the tokens to a
 * `Template`, and splicing text in place of a span.
 */
module Parsing {
  import opened Errors
  import opened Text

  /** The closed set of directives. */
  datatype Template =
    | Extends(name: string)
    | Use(name: string)
    | PageName
    | NavItems
    | CurrentDate(format: Option<string>)
    | Exec(command: string, args: seq<string>)
    | PageContent
  {
    /** The position of this directive's keyword in `Keywords`. */
    function Index(): (k: nat)
      ensures k < |Keywords|
    {
      match this
      case Extends(_) => 0
      case Use(_) => 1
      case PageName => 2
      case NavItems => 3
      case CurrentDate(_) => 4
      case Exec(_, _) => 5
      case PageContent => 6
    }

    /** The keyword that selects this directive. */
    function Id(): string
    {
      Keywords[Index()]
    }
  }

  const Keywords: seq<string> :=
    ["extends", "use", "pagename", "navitems", "currentdate", "exec", "pagecontent"]

  /** The position of `w` in `Keywords` from `k` on, or `|Keywords|` when it is not there. */
  function KeywordIndexFrom(w: string, k: nat): (i: nat)
    requires k <= |Keywords|
    decreases |Keywords| - k
    ensures k <= i <= |Keywords|
  {
    if k == |Keywords| || SameChars(Keywords[k], w) then k else KeywordIndexFrom(w, k + 1)
  }

  lemma {:induction false} KeywordIndexFromSpec(w: string, k: nat)
    requires k <= |Keywords|
    decreases |Keywords| - k
    ensures KeywordIndexFrom(w, k) < |Keywords| ==> Keywords[KeywordIndexFrom(w, k)] == w
    ensures KeywordIndexFrom(w, k) == |Keywords| ==> forall j :: k <= j < |Keywords| ==> Keywords[j] != w
  {
    if k < |Keywords| {
      SameCharsIsEquality(Keywords[k], w);
      if Keywords[k] != w {
        KeywordIndexFromSpec(w, k + 1);
      }
    }
  }

  /** Which keyword `w` is, as its position in `Keywords`. */
  function KeywordIndex(w: string): nat
  {
    KeywordIndexFrom(w, 0)
  }

  /** `KeywordIndex` finds `w` in `Keywords`, and gives `|Keywords|` exactly when it is not a keyword. */
  lemma KeywordIndexSpec(w: string)
    ensures KeywordIndex(w) <= |Keywords|
    ensures KeywordIndex(w) < |Keywords| ==> Keywords[KeywordIndex(w)] == w
    ensures KeywordIndex(w) == |Keywords| <==> w !in Keywords
  {
    KeywordIndexFromSpec(w, 0);
  }

  /** The tokens a directive is written with: its keyword, then its arguments. */
  function Unparse(t: Template): seq<string>
  {
    match t
    case Extends(name) => ["extends", name]
    case Use(name) => ["use", name]
    case PageName => ["pagename"]
    case NavItems => ["navitems"]
    case CurrentDate(None) => ["currentdate"]
    case CurrentDate(Some(f)) => ["currentdate", f]
    case Exec(command, args) => ["exec", command] + args
    case PageContent => ["pagecontent"]
  }

  /**
   * A directive found in a buffer, with the inclusive positions of the
   * first `{` of its opening `{{` and of the last `}` of its closing `}}`.
   */
  datatype Instance = Instance(startPos: nat, endPos: nat, template: Template)
  {
    /** The buffer with the span `[startPos, endPos]` replaced by `insert`. */
    function InsertBetween(content: string, insert: string): (r: string)
      requires startPos <= endPos < |content|
      ensures |r| == |content| - (endPos - startPos + 1) + |insert|
      ensures r[..startPos] == content[..startPos]
      ensures r[startPos..startPos + |insert|] == insert
      ensures r[startPos + |insert|..] == content[endPos + 1..]
    {
      content[..startPos] + insert + content[endPos + 1..]
    }

    /** The same directive with its positions moved `offset` characters on. */
    function Shift(offset: nat): Instance
    {
      Instance(startPos + offset, endPos + offset, template)
    }

    /** The buffer with the span `[startPos, endPos]` cut out. */
    function RemoveBetween(content: string): (r: string)
      requires startPos <= endPos < |content|
      ensures r == InsertBetween(content, "")
    {
      content[..startPos] + content[endPos + 1..]
    }
  }

  // ---------------------------------------------------------------------
  // Tokeniser

  /** The characters outside quotes that separate tokens. */
  predicate IsSeparator(c: char) {
    c == ' ' || c == '\t' || c == '\r' || c == '\n'
  }

  predicate IsQuote(c: char) {
    c == '"' || c == '\''
  }

  /** A character that neither separates tokens nor opens a quote. */
  predicate IsWordChar(c: char) {
    !IsSeparator(c) && !IsQuote(c)
  }

  /** The end of the run of word characters starting at `k`. */
  function WordEnd(s: string, k: nat): (j: nat)
    requires k <= |s|
    decreases |s| - k
    ensures k <= j <= |s|
    ensures forall m :: k <= m < j ==> IsWordChar(s[m])
    ensures j < |s| ==> !IsWordChar(s[j])
  {
    if k == |s| || !IsWordChar(s[k]) then k else WordEnd(s, k + 1)
  }

  /** The first index at or after `k` holding the quote character `q`, or `|s|`. */
  function CloseQuote(s: string, k: nat, q: char): (j: nat)
    requires k <= |s|
    decreases |s| - k
    ensures k <= j <= |s|
    ensures forall m :: k <= m < j ==> s[m] != q
    ensures j < |s| ==> s[j] == q
  {
    if k == |s| || s[k] == q then k else CloseQuote(s, k + 1, q)
  }

  /** `acc` followed by the tokens of `r`, or the error of `r`. */
  function Then(acc: seq<string>, r: Result<seq<string>>): Result<seq<string>>
  {
    match r
    case Ok(v) => Ok(acc + v)
    case Err(e) => Err(e)
  }

  /**
   * The tokens of `s[k..]`, described token by token: separators are
   * skipped; a quote character opens a token that runs verbatim up to the
   * next occurrence of the same character; otherwise a token is a run of
   * word characters ended by a separator or by the end of the text, and a
   * run ended by a quote character is dropped (the quote restarts the
   * token).
   */
  function TokenizeFrom(s: string, k: nat): (r: Result<seq<string>>)
    requires k <= |s|
    decreases |s| - k
    ensures r.Err? ==> r.error == UnclosedQuote
  {
    if k == |s| then Ok([])
    else if IsSeparator(s[k]) then TokenizeFrom(s, k + 1)
    else if IsQuote(s[k]) then
      var j := CloseQuote(s, k + 1, s[k]);
      if j == |s| then Err(UnclosedQuote)
      else Then([s[k + 1..j]], TokenizeFrom(s, j + 1))
    else
      var j := WordEnd(s, k);
      if j == |s| then Ok([s[k..]])
      else if IsSeparator(s[j]) then Then([s[k..j]], TokenizeFrom(s, j + 1))
      else TokenizeFrom(s, j)
  }

  function Tokenize(s: string): Result<seq<string>>
  {
    TokenizeFrom(s, 0)
  }

  /**
   * A trimmed, non-empty text whose quotes all close has at least one
   * token, so taking the first token of a parsed directive never fails.
   */
  lemma TokensNonEmpty(s: string)
    requires |s| > 0 && !IsSeparator(s[0])
    requires Tokenize(s).Ok?
    ensures |Tokenize(s).value| > 0
  {
    if !IsQuote(s[0]) {
      var j := WordEnd(s, 0);
      if j < |s| && IsQuote(s[j]) {
        assert Tokenize(s) == TokenizeFrom(s, j);
      }
    }
  }

  // ---------------------------------------------------------------------
  // Keyword dispatch

  /** The names of the arguments a `MissingArgument` error reports. */
  const NameArgument: string := "name"
  const CommandArgument: string := "command"

  /**
   * Maps the tokens of a directive to a `Template`: the first token is the
   * keyword; `extends` and `use` need a name and `exec` a command, all
   * further `exec` tokens are its arguments, `currentdate` takes an
   * optional format, and extra tokens are otherwise ignored.
   */
  function Dispatch(tokens: seq<string>): (r: Result<Template>)
    requires |tokens| > 0
    ensures r.Err? ==> r.error.UnknownTemplate? || r.error.MissingArgument?
  {
    var keyword := tokens[0];
    match KeywordIndex(keyword)
    case 0 => // extends
      if |tokens| > 1 then Ok(Extends(tokens[1])) else Err(MissingArgument(NameArgument))
    case 1 => // use
      if |tokens| > 1 then Ok(Use(tokens[1])) else Err(MissingArgument(NameArgument))
    case 2 => Ok(PageName)
    case 3 => Ok(NavItems)
    case 4 => // currentdate
      Ok(CurrentDate(if |tokens| > 1 then Some(tokens[1]) else None))
    case 5 => // exec
      if |tokens| > 1 then Ok(Exec(tokens[1], tokens[2..])) else Err(MissingArgument(CommandArgument))
    case 6 => Ok(PageContent)
    case _ => Err(UnknownTemplate(keyword))
  }

  /**
   * Keyword dispatch in both directions: a successful dispatch reads the
   * keyword and then exactly the arguments its directive needs (all the
   * remaining tokens for `exec`), and each error arises exactly when its
   * condition holds.
   */
  lemma DispatchCases(tokens: seq<string>)
    requires |tokens| > 0
    ensures var r := Dispatch(tokens);
            r.Ok? ==> r.value.Id() == tokens[0] && Unparse(r.value) <= tokens
    ensures var r := Dispatch(tokens);
            r.Ok? && r.value.Exec? ==> Unparse(r.value) == tokens
    ensures var r := Dispatch(tokens);
            r.Ok? && r.value.CurrentDate? ==> (r.value.format.Some? <==> |tokens| > 1)
    ensures Dispatch(tokens) == Err(UnknownTemplate(tokens[0])) <==> tokens[0] !in Keywords
    ensures Dispatch(tokens) == Err(MissingArgument(NameArgument)) <==> |tokens| == 1 && tokens[0] in ["extends", "use"]
    ensures Dispatch(tokens) == Err(MissingArgument(CommandArgument)) <==> |tokens| == 1 && tokens[0] == "exec"
    ensures Dispatch(tokens).Err? ==>
              Dispatch(tokens).error in {UnknownTemplate(tokens[0]), MissingArgument(NameArgument), MissingArgument(CommandArgument)}
  {
    KeywordIndexSpec(tokens[0]);
    DispatchRead(tokens);
    DispatchErrors(tokens);
  }

  /** A successful dispatch reads the keyword and then the arguments its directive needs. */
  lemma DispatchRead(tokens: seq<string>)
    requires |tokens| > 0
    requires KeywordIndex(tokens[0]) < |Keywords| ==> Keywords[KeywordIndex(tokens[0])] == tokens[0]
    ensures var r := Dispatch(tokens);
            r.Ok? ==> r.value.Id() == tokens[0] && Unparse(r.value) <= tokens
    ensures var r := Dispatch(tokens);
            r.Ok? && r.value.Exec? ==> Unparse(r.value) == tokens
    ensures var r := Dispatch(tokens);
            r.Ok? && r.value.CurrentDate? ==> (r.value.format.Some? <==> |tokens| > 1)
  {
    var r := Dispatch(tokens);
    if r.Ok? && r.value.Exec? {
      assert tokens == [tokens[0], tokens[1]] + tokens[2..];
    }
  }

  /** Each dispatch error arises exactly when its condition holds. */
  lemma DispatchErrors(tokens: seq<string>)
    requires |tokens| > 0
    requires KeywordIndex(tokens[0]) <= |Keywords|
    requires KeywordIndex(tokens[0]) < |Keywords| ==> Keywords[KeywordIndex(tokens[0])] == tokens[0]
    requires KeywordIndex(tokens[0]) == |Keywords| <==> tokens[0] !in Keywords
    ensures Dispatch(tokens) == Err(UnknownTemplate(tokens[0])) <==> tokens[0] !in Keywords
    ensures Dispatch(tokens) == Err(MissingArgument(NameArgument)) <==> |tokens| == 1 && tokens[0] in ["extends", "use"]
    ensures Dispatch(tokens) == Err(MissingArgument(CommandArgument)) <==> |tokens| == 1 && tokens[0] == "exec"
    ensures Dispatch(tokens).Err? ==>
              Dispatch(tokens).error in {UnknownTemplate(tokens[0]), MissingArgument(NameArgument), MissingArgument(CommandArgument)}
  {
  }

  /**
   * What `parse_template` returns for the inner text of a span: the inner
   * text is trimmed, an empty one is `Empty`, an open quote is
   * `UnclosedQuote`, and the tokens are dispatched on their keyword.
   */
  function TemplateOf(inner: string): (r: Result<Template>)
    ensures r == Err(Empty) <==> Trim(inner) == []
    ensures r == Err(UnclosedQuote) <==> Trim(inner) != [] && Tokenize(Trim(inner)).Err?
    ensures r.Err? ==> r.error in {Empty, UnclosedQuote} || r.error.UnknownTemplate? || r.error.MissingArgument?
    ensures r.Ok? ==> Tokenize(Trim(inner)).Ok? && Unparse(r.value) <= Tokenize(Trim(inner)).value
  {
    var content := Trim(inner);
    if |content| == 0 then Err(Empty)
    else
      var tokens :- Tokenize(content);
      TrimSpec(inner);
      TokensNonEmpty(content);
      DispatchCases(tokens);
      Dispatch(tokens)
  }

  lemma TemplateOfTokens(inner: string, tokens: seq<string>)
    requires Trim(inner) != [] && Tokenize(Trim(inner)) == Ok(tokens)
    ensures |tokens| > 0 && TemplateOf(inner) == Dispatch(tokens)
  {
    TrimSpec(inner);
    TokensNonEmpty(Trim(inner));
  }

  // ---------------------------------------------------------------------
  // parse_template, as the loop the source runs

  /** Where the token being read started, as `TokenizeFrom` sees it. */
  function Resume(start: nat, activeQuote: Option<char>): int
  {
    if activeQuote.Some? then start - 1 else start
  }

  lemma WordRunAtSeparator(s: string, start: nat, i: nat)
    requires start <= i < |s| && IsSeparator(s[i])
    requires forall m :: start <= m < i ==> IsWordChar(s[m])
    ensures TokenizeFrom(s, start) ==
            if start == i then TokenizeFrom(s, i + 1)
            else Then([s[start..i]], TokenizeFrom(s, i + 1))
  {
    if start < i {
      var j := WordEnd(s, start);
      assert j == i;
    }
  }

  lemma WordRunAtQuote(s: string, start: nat, i: nat)
    requires start <= i < |s| && IsQuote(s[i])
    requires forall m :: start <= m < i ==> IsWordChar(s[m])
    ensures TokenizeFrom(s, start) == TokenizeFrom(s, i)
  {
    if start < i {
      var j := WordEnd(s, start);
      assert j == i;
    }
  }

  lemma WordRunAtEnd(s: string, start: nat)
    requires start <= |s|
    requires forall m :: start <= m < |s| ==> IsWordChar(s[m])
    ensures TokenizeFrom(s, start) == if start == |s| then Ok([]) else Ok([s[start..]])
  {
  }

  lemma QuoteRunAtClose(s: string, t: nat, i: nat)
    requires t < i < |s| && IsQuote(s[t]) && s[i] == s[t]
    requires forall m :: t + 1 <= m < i ==> s[m] != s[t]
    ensures TokenizeFrom(s, t) == Then([s[t + 1..i]], TokenizeFrom(s, i + 1))
  {
    var j := CloseQuote(s, t + 1, s[t]);
    assert j == i;
  }

  lemma QuoteRunAtEnd(s: string, t: nat)
    requires t < |s| && IsQuote(s[t])
    requires forall m :: t + 1 <= m < |s| ==> s[m] != s[t]
    ensures TokenizeFrom(s, t) == Err(UnclosedQuote)
  {
    var j := CloseQuote(s, t + 1, s[t]);
    assert j == |s|;
  }

  lemma ThenThen(a: seq<string>, x: string, r: Result<seq<string>>)
    ensures Then(a, Then([x], r)) == Then(a + [x], r)
  {
    if r.Ok? {
      assert a + ([x] + r.value) == (a + [x]) + r.value;
    }
  }

  /**
   * The state of `parse_template`'s loop after `i` characters: `split`
   * holds the finished tokens, `start` is where the current one began, and
   * `quote` the quote character it is inside of; the finished tokens
   * followed by the tokens from the current one on are the tokens of `s`.
   */
  ghost predicate Scanned(s: string, split: seq<string>, start: nat, quote: Option<char>, i: nat) {
    && start <= i <= |s|
    && (quote.None? ==> forall m :: start <= m < i ==> IsWordChar(s[m]))
    && (quote.Some? ==>
          && 0 < start
          && s[start - 1] == quote.value
          && IsQuote(quote.value)
          && forall m :: start <= m < i ==> s[m] != quote.value)
    && Then(split, TokenizeFrom(s, Resume(start, quote))) == Tokenize(s)
  }

  lemma ScanBegin(s: string)
    ensures Scanned(s, [], 0, None, 0)
  {
    if Tokenize(s).Ok? {
      assert [] + Tokenize(s).value == Tokenize(s).value;
    }
  }

  lemma StepInQuote(s: string, split: seq<string>, start: nat, q: char, i: nat)
    requires Scanned(s, split, start, Some(q), i) && i < |s|
    ensures s[i] == q ==> Scanned(s, split + [s[start..i]], i + 1, None, i + 1)
    ensures s[i] != q ==> Scanned(s, split, start, Some(q), i + 1)
  {
    if s[i] == q {
      QuoteRunAtClose(s, start - 1, i);
      ThenThen(split, s[start..i], TokenizeFrom(s, i + 1));
    }
  }

  lemma StepSeparator(s: string, split: seq<string>, start: nat, i: nat)
    requires Scanned(s, split, start, None, i) && i < |s| && IsSeparator(s[i])
    ensures Scanned(s, if start != i then split + [s[start..i]] else split, i + 1, None, i + 1)
  {
    WordRunAtSeparator(s, start, i);
    if start != i {
      ThenThen(split, s[start..i], TokenizeFrom(s, i + 1));
    }
  }

  lemma StepOpenQuote(s: string, split: seq<string>, start: nat, i: nat)
    requires Scanned(s, split, start, None, i) && i < |s| && IsQuote(s[i])
    ensures Scanned(s, split, i + 1, Some(s[i]), i + 1)
  {
    WordRunAtQuote(s, start, i);
  }

  lemma StepWord(s: string, split: seq<string>, start: nat, i: nat)
    requires Scanned(s, split, start, None, i) && i < |s| && IsWordChar(s[i])
    ensures Scanned(s, split, start, None, i + 1)
  {
  }

  lemma ScanEnd(s: string, split: seq<string>, start: nat, quote: Option<char>)
    requires Scanned(s, split, start, quote, |s|)
    ensures quote.Some? ==> Tokenize(s) == Err(UnclosedQuote)
    ensures quote.None? ==> Tokenize(s) == Ok(split + if start < |s| then [s[start..]] else [])
  {
    if quote.Some? {
      QuoteRunAtEnd(s, start - 1);
    } else {
      WordRunAtEnd(s, start);
      if start == |s| {
        assert split + [] == split;
      }
    }
  }

  /**
   * `parse_template`: trims the inner text, splits it in one pass over its
   * characters while tracking the open quote, then dispatches on the first
   * token.
   */
  method ParseTemplate(inner: string) returns (r: Result<Template>)
    ensures r == TemplateOf(inner)
  {
    var content := Trim(inner);
    if |content| == 0 {
      return Err(Empty);
    }

    var split: seq<string> := [];
    var activeQuote: Option<char> := None;
    var start: nat := 0;
    ScanBegin(content);

    for i := 0 to |content|
      invariant Scanned(content, split, start, activeQuote, i)
    {
      split, start, activeQuote := ScanChar(content, split, start, activeQuote, i);
    }

    ScanEnd(content, split, start, activeQuote);
    if activeQuote.Some? {
      return Err(UnclosedQuote);
    }

    var rest := content[start..];
    if |rest| > 0 {
      split := split + [rest];
    } else {
      assert split + [] == split;
    }
    TemplateOfTokens(inner, split);
    r := Dispatch(split);
  }

  /** The body of the loop of `parse_template`: the character at `i` closes or opens a quote, ends a word, or extends one. */
  method ScanChar(content: string, split: seq<string>, start: nat, activeQuote: Option<char>, i: nat)
    returns (split': seq<string>, start': nat, activeQuote': Option<char>)
    requires i < |content| && Scanned(content, split, start, activeQuote, i)
    ensures Scanned(content, split', start', activeQuote', i + 1)
  {
    split', start', activeQuote' := split, start, activeQuote;
    var c := content[i];
    if activeQuote.Some? {
      StepInQuote(content, split, start, activeQuote.value, i);
      if activeQuote.value == c {
        activeQuote' := None;
        split' := split + [content[start..i]];
        start' := i + 1;
      }
    } else if c == ' ' || c == '\t' || c == '\r' || c == '\n' {
      StepSeparator(content, split, start, i);
      if start != i {
        split' := split + [content[start..i]];
      }
      start' := i + 1;
    } else if c == '"' || c == '\'' {
      StepOpenQuote(content, split, start, i);
      start' := i + 1;
      activeQuote' := Some(c);
    } else {
      StepWord(content, split, start, i);
    }
  }

  // ---------------------------------------------------------------------
  // Scanner

  /** `s` holds two `c` characters in a row at `j`: `{{` or `}}`. */
  predicate PairAt(s: string, c: char, j: int) {
    0 <= j && j + 1 < |s| && s[j] == c && s[j + 1] == c
  }

  /**
   * The first position at or after `k` where `c` is doubled; this is
   * `find("{{")` or `find("}}")` on `s[k..]`, with the answer counted
   * from the start of `s`.
   */
  function FindPair(s: string, c: char, k: nat): (r: Option<nat>)
    requires k <= |s|
    decreases |s| - k
    ensures r.Some? ==> k <= r.value && PairAt(s, c, r.value)
    ensures r.Some? ==> forall j :: k <= j < r.value ==> !PairAt(s, c, j)
    ensures r.None? ==> forall j :: k <= j ==> !PairAt(s, c, j)
  {
    if k + 1 >= |s| then None
    else if s[k] == c && s[k + 1] == c then Some(k)
    else FindPair(s, c, k + 1)
  }

  /** The search finds `p` when the pair sits there and no `c` occurs from `k` up to it. */
  lemma FindPairAt(s: string, c: char, k: nat, p: nat)
    requires k <= p && PairAt(s, c, p)
    requires forall q :: k <= q < p ==> s[q] != c
    ensures FindPair(s, c, k) == Some(p)
  {
  }

  /** Both searches of the scanner, when the first `{{` is at `p` and `}}` first follows at `c`. */
  lemma SpanAt(s: string, p: nat, c: nat)
    requires p + 2 <= c && c + 1 < |s|
    requires forall i :: 0 <= i < p ==> s[i] != '{'
    requires s[p] == '{' && s[p + 1] == '{' && s[c] == '}' && s[c + 1] == '}'
    requires forall q :: p + 2 <= q < c ==> s[q] != '}'
    ensures FindPair(s, '{', 0) == Some(p) && FindPair(s, '}', p) == Some(c)
  {
    FindPairAt(s, '{', 0, p);
    FindPairAt(s, '}', p, c);
  }

  /**
   * `[s, e]` is the span `find_next_template` reports: `s` is the first
   * occurrence of `{{`, and `e` is the second `}` of the first `}}` at or
   * after `s`.
   */
  ghost predicate IsFirstSpan(content: string, s: int, e: int) {
    && PairAt(content, '{', s)
    && (forall j :: 0 <= j < s ==> !PairAt(content, '{', j))
    && s + 2 < e < |content|
    && PairAt(content, '}', e - 1)
    && (forall j :: s <= j < e - 1 ==> !PairAt(content, '}', j))
  }

  /** `{{` first occurs at `s` and no `}}` follows it. */
  ghost predicate IsUnclosedAt(content: string, s: int) {
    && PairAt(content, '{', s)
    && (forall j :: 0 <= j < s ==> !PairAt(content, '{', j))
    && (forall j :: s <= j ==> !PairAt(content, '}', j))
  }

  lemma SpanNotUnclosed(content: string, s: int, e: int)
    requires IsFirstSpan(content, s, e)
    ensures forall k :: !IsUnclosedAt(content, k)
  {
    forall k
      ensures !IsUnclosedAt(content, k)
    {
      if k < s {
        assert !PairAt(content, '{', k);
      } else if k > s {
        assert 0 <= s < k && PairAt(content, '{', s);
      } else {
        assert s <= e - 1 && PairAt(content, '}', e - 1);
      }
    }
  }

  /** The text between the braces of the span `[s, e]`. */
  function Inner(content: string, s: nat, e: nat): string
    requires s + 2 <= e - 1 <= |content|
  {
    content[s + 2..e - 1]
  }

  /**
   * `find_next_template`: no `{{` means no directive (not an error); a `{{`
   * with no later `}}` is `UnclosedTemplate`; otherwise the first span is
   * reported with its parsed directive, or the parser's error.
   */
  function FindNextTemplate(content: string): (r: Result<Option<Instance>>)
    ensures r.Ok? && r.value.Some? ==>
              var i := r.value.value;
              PairAt(content, '{', i.startPos) && i.startPos + 2 < i.endPos < |content|
  {
    match FindPair(content, '{', 0)
    case None => Ok(None)
    case Some(startPos) =>
      // a `}}` cannot start at `startPos` or `startPos + 1`, which hold `{`
      match FindPair(content, '}', startPos)
      case None => Err(UnclosedTemplate)
      case Some(close) =>
        var endPos := close + 1;
        var template :- TemplateOf(Inner(content, startPos, endPos));
        Ok(Some(Instance(startPos, endPos, template)))
  }

  /**
   * What `find_next_template` reports, in both directions: `Ok(None)`
   * exactly when there is no `{{`, `UnclosedTemplate` exactly when the
   * first `{{` has no `}}` after it, and otherwise the first span with
   * the parser's verdict on its inner text.
   */
  lemma FindNextTemplateCases(content: string)
    ensures FindNextTemplate(content) == Ok(None) <==> forall j :: !PairAt(content, '{', j)
    ensures FindNextTemplate(content) == Err(UnclosedTemplate) <==> exists s :: IsUnclosedAt(content, s)
    ensures var r := FindNextTemplate(content);
            r.Err? && r.error != UnclosedTemplate ==>
              exists s, e :: IsFirstSpan(content, s, e) && TemplateOf(Inner(content, s, e)) == Err(r.error)
  {
    match FindPair(content, '{', 0)
    case None =>
    case Some(s) =>
      match FindPair(content, '}', s)
      case None =>
        assert IsUnclosedAt(content, s);
      case Some(c) =>
        assert IsFirstSpan(content, s, c + 1);
        SpanNotUnclosed(content, s, c + 1);
  }

  /** A directive reported is the first span, and its directive is what the parser makes of the inner text. */
  lemma FindNextTemplateFound(content: string)
    ensures var r := FindNextTemplate(content);
            r.Ok? && r.value.Some? ==>
              var i := r.value.value;
              && IsFirstSpan(content, i.startPos, i.endPos)
              && TemplateOf(Inner(content, i.startPos, i.endPos)) == Ok(i.template)
  {
    match FindPair(content, '{', 0)
    case None =>
    case Some(s) =>
      match FindPair(content, '}', s)
      case None =>
      case Some(c) =>
        assert IsFirstSpan(content, s, c + 1);
  }

  /** `find_next_template` once both searches and the parse of the inner text are known. */
  lemma FindNextTemplateAt(content: string, s: nat, c: nat, t: Template)
    requires FindPair(content, '{', 0) == Some(s) && FindPair(content, '}', s) == Some(c)
    requires s + 2 <= c <= |content| && TemplateOf(Inner(content, s, c + 1)) == Ok(t)
    ensures FindNextTemplate(content) == Ok(Some(Instance(s, c + 1, t)))
  {
  }

  // ---------------------------------------------------------------------
  // find_template

  /**
   * The first directive of `content[offset..]`, in scan order, whose
   * keyword is the `kind`-th of `Keywords`, with positions absolute in
   * `content`; scanning resumes after each directive that does not match,
   * and a scan error met before the match is returned.
   */
  function FirstWithIdFrom(content: string, offset: nat, kind: nat): Result<Option<Instance>>
    requires offset <= |content|
    decreases |content| - offset, 1
  {
    FirstWithIdAfter(content, offset, kind, FindNextTemplate(content[offset..]))
  }

  /** The search from `offset` on, once the directive `next` found there is known. */
  function FirstWithIdAfter(content: string, offset: nat, kind: nat, next: Result<Option<Instance>>): Result<Option<Instance>>
    requires offset <= |content|
    requires next.Ok? && next.value.Some? ==> var t := next.value.value; t.startPos + 2 < t.endPos < |content| - offset
    decreases |content| - offset, 0
  {
    if next.Err? || next.value.None? then next
    else
      var t := next.value.value;
      if t.template.Index() == kind then Ok(Some(t.Shift(offset)))
      else FirstWithIdFrom(content, offset + t.endPos + 1, kind)
  }

  /** `find_template(content, id)`: a directive it finds is a span of `content` with keyword `id`. */
  function FirstWithId(content: string, id: string): (r: Result<Option<Instance>>)
    ensures r.Ok? && r.value.Some? ==>
              var i := r.value.value;
              i.startPos + 2 < i.endPos < |content| && i.template.Id() == id
  {
    FirstWithIdFromSpec(content, 0, KeywordIndex(id));
    var r := FirstWithIdFrom(content, 0, KeywordIndex(id));
    if r.Ok? && r.value.Some? then IndexMatchesId(r.value.value.template, id); r else r
  }

  /** A directive found from `offset` on lies in `content[offset..]` and is of the kind looked for. */
  lemma {:induction false} FirstWithIdFromSpec(content: string, offset: nat, kind: nat)
    requires offset <= |content|
    ensures var r := FirstWithIdFrom(content, offset, kind);
            r.Ok? && r.value.Some? ==>
              var i := r.value.value;
              && offset <= i.startPos && i.startPos + 2 < i.endPos < |content|
              && i.template.Index() == kind
    decreases |content| - offset, 1
  {
    var next := FindNextTemplate(content[offset..]);
    FirstWithIdUnfold(content, offset, kind, next);
    FirstWithIdAfterSpec(content, offset, kind, next);
  }

  lemma {:induction false} FirstWithIdAfterSpec(content: string, offset: nat, kind: nat, next: Result<Option<Instance>>)
    requires offset <= |content|
    requires next.Ok? && next.value.Some? ==> var t := next.value.value; t.startPos + 2 < t.endPos < |content| - offset
    ensures var r := FirstWithIdAfter(content, offset, kind, next);
            r.Ok? && r.value.Some? ==>
              var i := r.value.value;
              && offset <= i.startPos && i.startPos + 2 < i.endPos < |content|
              && i.template.Index() == kind
    decreases |content| - offset, 0
  {
    if next.Ok? && next.value.Some? && next.value.value.template.Index() != kind {
      FirstWithIdFromSpec(content, offset + next.value.value.endPos + 1, kind);
    }
  }

  /**
   * `find_template` compares keywords as strings; comparing their
   * positions in `Keywords` is the same test.
   */
  lemma IndexMatchesId(t: Template, id: string)
    ensures t.Index() == KeywordIndex(id) <==> t.Id() == id
  {
    KeywordIndexSpec(id);
  }

  lemma FirstWithIdUnfold(content: string, offset: nat, kind: nat, next: Result<Option<Instance>>)
    requires offset <= |content| && next == FindNextTemplate(content[offset..])
    ensures next.Ok? && next.value.Some? ==> next.value.value.startPos + 2 < next.value.value.endPos < |content| - offset
    ensures FirstWithIdFrom(content, offset, kind) == FirstWithIdAfter(content, offset, kind, next)
  {
  }

  /** The search stops at an error, at the end of the directives, or at a match. */
  lemma FirstWithIdStop(content: string, offset: nat, kind: nat, next: Result<Option<Instance>>)
    requires offset <= |content| && next == FindNextTemplate(content[offset..])
    ensures next.Err? || next.value.None? ==> FirstWithIdFrom(content, offset, kind) == next
    ensures next.Ok? && next.value.Some? && next.value.value.template.Index() == kind ==>
              FirstWithIdFrom(content, offset, kind) == Ok(Some(next.value.value.Shift(offset)))
  {
    FirstWithIdUnfold(content, offset, kind, next);
  }

  /** Skipping a directive of another kind, to resume at `resume`, leaves the answer unchanged. */
  lemma FirstWithIdSkip(content: string, offset: nat, kind: nat, t: Instance, resume: nat)
    requires offset <= |content| && FindNextTemplate(content[offset..]) == Ok(Some(t))
    requires t.template.Index() != kind && resume == offset + t.endPos + 1
    ensures resume <= |content|
    ensures FirstWithIdFrom(content, offset, kind) == FirstWithIdFrom(content, resume, kind)
  {
    FirstWithIdUnfold(content, offset, kind, Ok(Some(t)));
    AfterSkip(content, offset, kind, t, resume);
  }

  /** One step of the search: a directive of another kind sends it on to `resume`. */
  lemma AfterSkip(content: string, offset: nat, kind: nat, t: Instance, resume: nat)
    requires offset <= |content| && t.startPos + 2 < t.endPos < |content| - offset
    requires t.template.Index() != kind && resume == offset + t.endPos + 1
    ensures FirstWithIdAfter(content, offset, kind, Ok(Some(t))) == FirstWithIdFrom(content, resume, kind)
  {
  }

  /** The pairs of `content[o..]` are the pairs of `content` from `o` on. */
  lemma PairsFrom(content: string, o: nat, c: char)
    requires o <= |content|
    ensures forall j :: 0 <= j ==> (PairAt(content[o..], c, j) <==> PairAt(content, c, o + j))
  {
  }

  /**
   * `[s, e]` is the span a scan of `content` from `o` on reports, in the
   * positions of `content`: `s` is the first `{{` at or after `o`, and `e`
   * the second `}` of the first `}}` at or after `s`.
   */
  ghost predicate IsFirstSpanFrom(content: string, o: int, s: int, e: int) {
    && 0 <= o <= s
    && PairAt(content, '{', s)
    && (forall j :: o <= j < s ==> !PairAt(content, '{', j))
    && s + 2 < e < |content|
    && PairAt(content, '}', e - 1)
    && (forall j :: s <= j < e - 1 ==> !PairAt(content, '}', j))
  }

  /** The scan of `content` from `o` on reports `next`. */
  ghost predicate ScansTo(content: string, o: nat, next: Result<Option<Instance>>) {
    o <= |content| && FindNextTemplate(content[o..]) == next
  }

  /** The first span of `content[o..]` is, moved by `o`, the first span of `content` from `o` on, around the same inner text. */
  lemma SpanFrom(content: string, o: nat, s: int, e: int)
    requires o <= |content| && IsFirstSpan(content[o..], s, e)
    ensures IsFirstSpanFrom(content, o, o + s, o + e)
    ensures Inner(content[o..], s, e) == Inner(content, o + s, o + e)
  {
    var rest := content[o..];
    PairsFrom(content, o, '{');
    PairsFrom(content, o, '}');
    forall j | o <= j < o + s
      ensures !PairAt(content, '{', j)
    {
      assert !PairAt(rest, '{', j - o);
    }
    forall j | o + s <= j < o + e - 1
      ensures !PairAt(content, '}', j)
    {
      assert !PairAt(rest, '}', j - o);
    }
  }

  /** A first span of `content[o..]` whose inner text parses to `tt` is, moved by `o`, a first span of `content` from `o` on with the same parse. */
  lemma SpanParsesFrom(content: string, o: nat, s: int, e: int, tt: Template)
    requires o <= |content| && ParsedSpan(content[o..], 0, s, e, tt)
    ensures ParsedSpan(content, o, s + o, e + o, tt)
  {
    SpanFrom(content, o, s, e);
  }

  /** The directive `find_next_template` reports is the first span of `rest`, and its inner text parses to it. */
  lemma FoundSpan(rest: string, t: Instance)
    requires FindNextTemplate(rest) == Ok(Some(t))
    ensures ParsedSpan(rest, 0, t.startPos, t.endPos, t.template)
  {
    FindNextTemplateFound(rest);
  }

  /** A directive found in `content[o..]`, moved to the positions of `content`, is the first span from `o` on, and its inner text parses to it. */
  lemma FoundFrom(content: string, o: nat, t: Instance)
    requires ScansTo(content, o, Ok(Some(t)))
    ensures ParsedSpan(content, o, t.startPos + o, t.endPos + o, t.template)
  {
    ScannedSpan(content, o, t);
    FoundFromSpan(content, o, t);
  }

  /** `FoundFrom` once the span of `content[o..]` is known. */
  lemma FoundFromSpan(content: string, o: nat, t: Instance)
    requires ScansTo(content, o, Ok(Some(t))) && ParsedSpan(content[o..], 0, t.startPos, t.endPos, t.template)
    ensures ParsedSpan(content, o, t.startPos + o, t.endPos + o, t.template)
  {
    SpanParsesFrom(content, o, t.startPos, t.endPos, t.template);
  }

  /** `FoundSpan` for the scan of `content` from `o` on. */
  lemma ScannedSpan(content: string, o: nat, t: Instance)
    requires ScansTo(content, o, Ok(Some(t)))
    ensures ParsedSpan(content[o..], 0, t.startPos, t.endPos, t.template)
  {
    FoundSpan(content[o..], t);
  }

  /** No directive in `content[o..]` means no `{{` in `content` from `o` on. */
  lemma NoneFrom(content: string, o: nat)
    requires o <= |content| && FindNextTemplate(content[o..]) == Ok(None)
    ensures forall j :: o <= j ==> !PairAt(content, '{', j)
  {
    FindNextTemplateCases(content[o..]);
    PairsFrom(content, o, '{');
    forall j | o <= j
      ensures !PairAt(content, '{', j)
    {
      assert !PairAt(content[o..], '{', j - o);
    }
  }

  /** At `o` the search passes a directive of another kind than `kind` and resumes at `o'`, just past it. */
  ghost predicate Skips(content: string, kind: nat, o: nat, o': nat) {
    && o <= |content|
    && var next := FindNextTemplate(content[o..]);
       && next.Ok? && next.value.Some? && next.value.value.template.Index() != kind
       && o' == o + next.value.value.endPos + 1
  }

  /**
   * At `o` the search stops with `r`: with the scan's error, with `None`
   * when no directive is left, or with a directive of the kind sought,
   * moved to the positions of `content`.
   */
  ghost predicate StopsWith(content: string, kind: nat, o: nat, r: Result<Option<Instance>>) {
    && o <= |content|
    && var next := FindNextTemplate(content[o..]);
       match r
       case Err(e) => next == Err(e)
       case Ok(None) => next == Ok(None)
       case Ok(Some(i)) =>
         next.Ok? && next.value.Some? && next.value.value.template.Index() == kind && i == next.value.value.Shift(o)
  }

  /**
   * The search visits the offsets `rs` in turn: at each but the last it
   * passes a directive of another kind, and at the last it stops with `r`.
   */
  ghost predicate SearchPath(content: string, kind: nat, rs: seq<nat>, r: Result<Option<Instance>>) {
    && |rs| > 0
    && (forall j :: 0 <= j < |rs| - 1 ==> Skips(content, kind, rs[j], rs[j + 1]))
    && StopsWith(content, kind, rs[|rs| - 1], r)
  }

  /** A path from the resume point, after one directive passed at `o`, is a path from `o`. */
  lemma SearchPathCons(content: string, kind: nat, o: nat, rs: seq<nat>, r: Result<Option<Instance>>)
    requires SearchPath(content, kind, rs, r) && Skips(content, kind, o, rs[0])
    ensures SearchPath(content, kind, [o] + rs, r)
  {
    var ps := [o] + rs;
    forall j | 0 <= j < |ps| - 1
      ensures Skips(content, kind, ps[j], ps[j + 1])
    {
      if j > 0 {
        assert ps[j] == rs[j - 1] && ps[j + 1] == rs[j];
      }
    }
    assert ps[|ps| - 1] == rs[|rs| - 1];
  }

  /** The search from `offset` visits offsets that pass directives of other kinds until it stops with its answer. */
  lemma {:induction false} SearchFrom(content: string, offset: nat, kind: nat)
    requires offset <= |content|
    ensures exists rs :: SearchPath(content, kind, rs, FirstWithIdFrom(content, offset, kind)) && rs[0] == offset
    decreases |content| - offset, 1
  {
    var next := FindNextTemplate(content[offset..]);
    FirstWithIdUnfold(content, offset, kind, next);
    SearchAfter(content, offset, kind, next);
  }

  lemma {:induction false} SearchAfter(content: string, offset: nat, kind: nat, next: Result<Option<Instance>>)
    requires ScansTo(content, offset, next)
    requires next.Ok? && next.value.Some? ==> var t := next.value.value; t.startPos + 2 < t.endPos < |content| - offset
    ensures exists rs :: SearchPath(content, kind, rs, FirstWithIdAfter(content, offset, kind, next)) && rs[0] == offset
    decreases |content| - offset, 0
  {
    if next.Ok? && next.value.Some? && next.value.value.template.Index() != kind {
      var t := next.value.value;
      var resume := offset + t.endPos + 1;
      AfterSkip(content, offset, kind, t, resume);
      SearchFrom(content, resume, kind);
      var rs :| SearchPath(content, kind, rs, FirstWithIdFrom(content, resume, kind)) && rs[0] == resume;
      assert Skips(content, kind, offset, resume);
      SearchPathCons(content, kind, offset, rs, FirstWithIdFrom(content, resume, kind));
      assert ([offset] + rs)[0] == offset;
    } else {
      var r := if next.Err? || next.value.None? then next else Ok(Some(next.value.value.Shift(offset)));
      assert FirstWithIdAfter(content, offset, kind, next) == r;
      assert StopsWith(content, kind, offset, r);
      assert SearchPath(content, kind, [offset], r);
    }
  }

  /** `[s, e]` is the first span of `content` from `o` on, and its inner text parses to `tt`. */
  ghost predicate ParsedSpan(content: string, o: int, s: int, e: int, tt: Template) {
    IsFirstSpanFrom(content, o, s, e) && TemplateOf(Inner(content, s, e)) == Ok(tt)
  }

  /**
   * A directive passed at `o` is the first span of `content` from `o` on:
   * its inner text parses to a directive of another kind, and the search
   * resumes just past its closing braces.
   */
  lemma SkipSpan(content: string, kind: nat, o: nat, o': nat)
    requires Skips(content, kind, o, o')
    ensures exists s, e, tt :: ParsedSpan(content, o, s, e, tt) && e + 1 == o' && tt.Index() != kind
  {
    var t := FindNextTemplate(content[o..]).value.value;
    assert ScansTo(content, o, Ok(Some(t)));
    PassedFound(content, kind, o, o', t);
  }

  lemma PassedFound(content: string, kind: nat, o: nat, o': nat, t: Instance)
    requires ScansTo(content, o, Ok(Some(t))) && t.template.Index() != kind && o' == o + t.endPos + 1
    ensures exists s, e, tt :: ParsedSpan(content, o, s, e, tt) && e + 1 == o' && tt.Index() != kind
  {
    FoundFrom(content, o, t);
    assert t.endPos + o + 1 == o';
  }

  /**
   * `find_template(content, id)` follows a search path from offset 0:
   * every directive it passes on the way is of another kind (`SkipSpan`
   * says where each one lies), and where the path ends the answer is the
   * scan's error, `None` because no `{{` is left from there on, or the
   * first span from there on, whose inner text parses to a directive with
   * keyword `id`, at its positions in `content`.
   */
  lemma FirstWithIdSpec(content: string, id: string)
    ensures var r := FirstWithId(content, id);
            exists rs :: && SearchPath(content, KeywordIndex(id), rs, r) && rs[0] == 0
                         && (r == Ok(None) ==> forall j :: rs[|rs| - 1] <= j ==> !PairAt(content, '{', j))
                         && (r.Ok? && r.value.Some? ==>
                               var i := r.value.value;
                               i.template.Id() == id && ParsedSpan(content, rs[|rs| - 1], i.startPos, i.endPos, i.template))
  {
    var kind := KeywordIndex(id);
    var r := FirstWithIdFrom(content, 0, kind);
    assert FirstWithId(content, id) == r;
    SearchFrom(content, 0, kind);
    var rs :| SearchPath(content, kind, rs, r) && rs[0] == 0;
    var o := rs[|rs| - 1];
    assert StopsWith(content, kind, o, r);
    if r == Ok(None) {
      NoneFrom(content, o);
    } else if r.Ok? && r.value.Some? {
      StopSpan(content, kind, o, r);
      IndexMatchesId(r.value.value.template, id);
    }
  }

  /** The match the search stops with at `o` is the first span from `o` on, and its inner text parses to it. */
  lemma StopSpan(content: string, kind: nat, o: nat, r: Result<Option<Instance>>)
    requires StopsWith(content, kind, o, r) && r.Ok? && r.value.Some?
    ensures var i := r.value.value; ParsedSpan(content, o, i.startPos, i.endPos, i.template)
  {
    var t := FindNextTemplate(content[o..]).value.value;
    assert ScansTo(content, o, Ok(Some(t)));
    FoundFrom(content, o, t);
    ShiftSpan(content, o, t, r.value.value);
  }

  /** `FoundFrom` in terms of the shifted directive. */
  lemma ShiftSpan(content: string, o: nat, t: Instance, i: Instance)
    requires ParsedSpan(content, o, t.startPos + o, t.endPos + o, t.template) && i == t.Shift(o)
    ensures ParsedSpan(content, o, i.startPos, i.endPos, i.template)
  {
  }

  /** A directive `find_template(content, id)` finds has keyword `id` and is a first span of `content` from some offset on, whose inner text parses to it. */
  lemma FoundWithId(content: string, id: string, i: Instance)
    requires FirstWithId(content, id) == Ok(Some(i))
    ensures i.template.Id() == id
    ensures exists o :: ParsedSpan(content, o, i.startPos, i.endPos, i.template)
  {
    FirstWithIdSpec(content, id);
  }

  /** `content` holds `{{` at `s` and `}}` ending at `e`, and the text between them parses to `tt`. */
  ghost predicate DirectiveAt(content: string, s: int, e: int, tt: Template) {
    && 0 <= s && s + 2 < e < |content|
    && PairAt(content, '{', s) && PairAt(content, '}', e - 1)
    && TemplateOf(Inner(content, s, e)) == Ok(tt)
  }

  /** The braces and the parse of a directive `find_template(content, id)` finds. */
  lemma FoundWithIdAt(content: string, id: string, i: Instance)
    requires FirstWithId(content, id) == Ok(Some(i))
    ensures i.template.Id() == id && DirectiveAt(content, i.startPos, i.endPos, i.template)
  {
    FoundWithId(content, id, i);
  }

  /** `find_template`: the loop that advances `offset` past each non-matching directive. */
  method FindTemplate(content: string, targetId: string) returns (r: Result<Option<Instance>>)
    ensures r == FirstWithId(content, targetId)
  {
    var kind := KeywordIndex(targetId);
    ghost var goal := FirstWithIdFrom(content, 0, kind);
    var offset: nat := 0;
    while true
      invariant offset <= |content|
      invariant FirstWithIdFrom(content, offset, kind) == goal
      decreases |content| - offset
    {
      var next := FindNextTemplate(content[offset..]);
      FirstWithIdStop(content, offset, kind, next);
      if next.Err? || next.value.None? {
        return next;
      }
      var template := next.value.value;
      IndexMatchesId(template.template, targetId);
      if template.template.Id() == targetId {
        return Ok(Some(template.Shift(offset)));
      }
      var resume := offset + template.endPos + 1;
      FirstWithIdSkip(content, offset, kind, template, resume);
      offset := resume;
    }
  }
}
