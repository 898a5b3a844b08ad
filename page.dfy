/**
 * Page files: the `+++ ... +++` front matter, the page configuration it
 * holds, and the page name taken from the title or from the file name.
 */
module Pages {
  import opened Errors
  import opened Text

  /** The front matter of a page; `navignore` is `false` when absent. */
  datatype Config = Config(title: Option<string>, path: Option<string>, output: Option<string>, navignore: bool)

  /** A loaded page: its name, its body after the front matter, and its configuration. */
  datatype Page = Page(name: string, content: string, config: Option<Config>)

  /** The values of a parsed TOML document that the configuration reads. */
  datatype TomlValue = TString(str: string) | TBool(flag: bool) | TOther

  /**
   * Turns a TOML syntax parser into a table of top-level keys, or `None`
   * when the text is not TOML; the parser itself is not modelled.
   */
  type TomlParser = string -> Option<map<string, TomlValue>>

  /** An optional string field: absent is `None`, a string is kept, anything else is rejected. */
  function OptionalString(table: map<string, TomlValue>, key: string): (r: Result<Option<string>>)
    ensures r.Ok? && r.value.Some? <==> key in table && table[key].TString?
    ensures r.Ok? && r.value.Some? ==> table[key] == TString(r.value.value)
    ensures r.Err? <==> key in table && !table[key].TString?
  {
    if key !in table then Ok(None)
    else match table[key]
      case TString(s) => Ok(Some(s))
      case _ => Err(ConfigParseError)
  }

  /** The derived deserialiser of `Config`: unknown keys are ignored, a mistyped field is an error. */
  function ConfigFromTable(table: map<string, TomlValue>): (r: Result<Config>)
    ensures r.Ok? ==> (r.value.navignore <==> "navignore" in table && table["navignore"] == TBool(true))
    ensures r.Ok? <==> && OptionalString(table, "title").Ok?
                       && OptionalString(table, "path").Ok?
                       && OptionalString(table, "output").Ok?
                       && ("navignore" in table ==> table["navignore"].TBool?)
    ensures r.Ok? ==> && r.value.title == OptionalString(table, "title").value
                      && r.value.path == OptionalString(table, "path").value
                      && r.value.output == OptionalString(table, "output").value
  {
    var title :- OptionalString(table, "title");
    var path :- OptionalString(table, "path");
    var output :- OptionalString(table, "output");
    var navignore :-
      if "navignore" !in table then Ok(false)
      else match table["navignore"]
        case TBool(b) => Ok(b)
        case _ => Err(ConfigParseError);
    Ok(Config(title, path, output, navignore))
  }

  /** `Config::parse`: text that is not TOML, or a table that is not a `Config`, is `ConfigParseError`. */
  function ParseConfig(toml: TomlParser, text: string): (r: Result<Config>)
    ensures r.Err? ==> r.error == ConfigParseError
    ensures toml(text).None? ==> r.Err?
  {
    match toml(text)
    case None => Err(ConfigParseError)
    case Some(table) => ConfigFromTable(table)
  }

  const Fence: string := "+++"

  /**
   * The split of a page file into its front matter text (if any) and its
   * body: the file is trimmed; if it then starts with `+++`, the front
   * matter runs up to the next `+++` and the body is whatever follows,
   * not trimmed again.
   */
  function SplitFrontMatter(text: string): (r: Result<(Option<string>, string)>)
    ensures r.Err? ==> r.error == UnclosedConfig
  {
    var content := Trim(text);
    if StartsWith(content, Fence) then
      var rest := content[|Fence|..];
      match Find(rest, Fence)
      case None => Err(UnclosedConfig)
      case Some(i) => Ok((Some(rest[..i]), rest[i + |Fence|..]))
    else Ok((None, content))
  }

  /** The three outcomes of splitting, each with the condition that selects it. */
  lemma SplitFrontMatterCases(text: string)
    ensures var content := Trim(text);
            SplitFrontMatter(text) == Ok((None, content)) <==> !StartsWith(content, Fence)
    ensures var content := Trim(text);
            SplitFrontMatter(text) == Err(UnclosedConfig) <==>
              StartsWith(content, Fence) && !Contains(content[|Fence|..], Fence)
    ensures var r := SplitFrontMatter(text);
            r.Ok? && r.value.0.Some? ==>
              && Trim(text) == Fence + r.value.0.value + Fence + r.value.1
              && !Contains(r.value.0.value, Fence)
              && (r.value.0.value == [] || r.value.0.value[|r.value.0.value| - 1] != '+')
  {
    var content := Trim(text);
    var r := SplitFrontMatter(text);
    if r.Ok? && r.value.0.Some? {
      var rest := content[|Fence|..];
      var i := Find(rest, Fence).value;
      var c := r.value.0.value;
      assert c == rest[..i];
      assert rest == c + Fence + rest[i + |Fence|..] by {
        assert rest[i..i + |Fence|] == Fence;
      }
      assert content == Fence + rest by {
        assert content[..|Fence|] == Fence;
      }
      OccursInPrefix(rest, i, Fence);
      if i > 0 && c[i - 1] == '+' {
        // the closing fence would then have started one character earlier
        assert rest[i - 1] == '+' && rest[i] == '+' && rest[i + 1] == '+';
        assert rest[i - 1..i + 2] == Fence;
        assert OccursAt(rest, Fence, i - 1);
        assert false;
      }
    }
  }

  /** The first fence in `config + Fence + body` is the one after `config`, under the same conditions. */
  lemma FenceAfter(config: string, body: string)
    requires !Contains(config, Fence)
    requires config == [] || config[|config| - 1] != '+'
    ensures Find(config + Fence + body, Fence) == Some(|config|)
  {
    var rest := config + Fence + body;
    var n := |config|;
    assert rest[..n] == config;
    assert OccursAt(rest, Fence, n) by {
      assert rest[n..n + |Fence|] == Fence;
    }
    OccursInPrefix(rest, n, Fence);
    forall j | 0 <= j < n
      ensures !OccursAt(rest, Fence, j)
    {
      if j + |Fence| > n {
        // an occurrence here would cover the last character of `config`
        assert rest[j..j + |Fence|][n - 1 - j] == rest[n - 1] == config[n - 1] != '+';
      }
    }
  }

  /**
   * Front matter written without `+++` inside it, and not ending in `+`
   * (which would let the closing fence begin early), is split off exactly.
   */
  lemma SplitFrontMatterJoin(text: string, config: string, body: string)
    requires Trim(text) == Fence + config + Fence + body
    requires !Contains(config, Fence)
    requires config == [] || config[|config| - 1] != '+'
    ensures SplitFrontMatter(text) == Ok((Some(config), body))
  {
    var content := Trim(text);
    var rest := content[|Fence|..];
    assert content[..|Fence|] == Fence;
    assert rest == config + Fence + body;
    FenceAfter(config, body);
    assert rest[..|config|] == config;
    assert rest[|config| + |Fence|..] == body;
  }

  /**
   * `page_name_from_path` on a file name: everything through the first
   * `_` is dropped, then everything from the last `.` on.
   */
  function PageNameFromPath(fileName: string): string
  {
    var name := match IndexOf(fileName, '_')
      case Some(i) => fileName[i + 1..]
      case None => fileName;
    match LastIndexOf(name, '.')
    case Some(i) => name[..i]
    case None => name
  }

  /** `a` is just past the first `c` of `f`, or 0 when `f` has none. */
  ghost predicate JustPastFirst(f: string, c: char, a: int) {
    || (a == 0 && forall j :: 0 <= j < |f| ==> f[j] != c)
    || (0 < a <= |f| && f[a - 1] == c && forall j :: 0 <= j < a - 1 ==> f[j] != c)
  }

  /** `b` is the last `c` of `f` at or after `a`, or `|f|` when there is none. */
  ghost predicate AtLastFrom(f: string, c: char, a: int, b: int) {
    || (0 <= a && b == |f| && forall j :: a <= j < |f| ==> f[j] != c)
    || (0 <= a <= b < |f| && f[b] == c && forall j :: b < j < |f| ==> f[j] != c)
  }

  /** Where the name starts: just past the first `_`. */
  lemma NameStart(f: string) returns (a: nat)
    ensures a <= |f| && JustPastFirst(f, '_', a)
    ensures a == match IndexOf(f, '_') case Some(i) => i + 1 case None => 0
  {
    match IndexOf(f, '_')
    case Some(i) => a := i + 1;
    case None => a := 0;
  }

  /** Where the name ends: at the last `.` of what follows `a`. */
  lemma NameEnd(f: string, a: nat) returns (b: nat)
    requires a <= |f|
    ensures a <= b <= |f| && AtLastFrom(f, '.', a, b)
    ensures f[a..b] == match LastIndexOf(f[a..], '.') case Some(i) => f[a..][..i] case None => f[a..]
  {
    var name := f[a..];
    assert forall j :: a <= j < |f| ==> f[j] == name[j - a];
    match LastIndexOf(name, '.')
    case Some(i) =>
      b := a + i;
      assert f[a..b] == name[..i];
    case None =>
      b := |f|;
  }

  /**
   * The page name is the slice `[a, b)` of the file name where `a` is just
   * past its first `_` (or 0, when there is none) and `b` is its last `.`
   * at or after `a` (or its length, when there is none).
   */
  lemma PageNameSlice(fileName: string)
    ensures exists a, b :: && 0 <= a <= b <= |fileName| && PageNameFromPath(fileName) == fileName[a..b]
                           && JustPastFirst(fileName, '_', a) && AtLastFrom(fileName, '.', a, b)
  {
    var f := fileName;
    var a := NameStart(f);
    var b := NameEnd(f, a);
    assert PageNameFromPath(f) == f[a..b];
  }

  /** A file name with neither `_` nor `.` is the page name unchanged. */
  lemma PageNamePlain(fileName: string)
    requires '_' !in fileName && '.' !in fileName
    ensures PageNameFromPath(fileName) == fileName
  {
  }

  /** `Page::read` once the file has been read: split, parse the front matter, choose the name. */
  function ReadPage(toml: TomlParser, fileName: string, text: string): (r: Result<Page>)
    ensures r.Err? ==> r.error in {UnclosedConfig, ConfigParseError}
    ensures r.Ok? ==> if r.value.config.Some? && r.value.config.value.title.Some?
                      then r.value.name == r.value.config.value.title.value
                      else r.value.name == PageNameFromPath(fileName)
  {
    var (configText, content) :- SplitFrontMatter(text);
    var config :- match configText
      case None => Ok(None)
      case Some(c) => var cfg :- ParseConfig(toml, c); Ok(Some(cfg));
    var name := if config.Some? && config.value.title.Some? then config.value.title.value
                else PageNameFromPath(fileName);
    Ok(Page(name, content, config))
  }

  /** A page without front matter is its trimmed text, named by its file name. */
  lemma ReadPlainPage(toml: TomlParser, fileName: string, text: string)
    requires !StartsWith(Trim(text), Fence)
    ensures ReadPage(toml, fileName, text) == Ok(Page(PageNameFromPath(fileName), Trim(text), None))
  {
    SplitFrontMatterCases(text);
  }

  /**
   * A page written as front matter between fences and then a body loads
   * as that body with the configuration the front matter describes.
   */
  lemma ReadFrontMatterPage(toml: TomlParser, fileName: string, text: string, config: string, body: string,
                            table: map<string, TomlValue>, cfg: Config)
    requires Trim(text) == Fence + config + Fence + body
    requires !Contains(config, Fence)
    requires config == [] || config[|config| - 1] != '+'
    requires toml(config) == Some(table) && ConfigFromTable(table) == Ok(cfg)
    ensures ReadPage(toml, fileName, text) ==
              Ok(Page(if cfg.title.Some? then cfg.title.value else PageNameFromPath(fileName), body, Some(cfg)))
  {
    SplitFrontMatterJoin(text, config, body);
  }

  /** Loading fails with `UnclosedConfig` exactly when the opening fence has no closing one, and with `ConfigParseError` exactly when the front matter is not a configuration. */
  lemma ReadPageErrors(toml: TomlParser, fileName: string, text: string)
    ensures var content := Trim(text);
            ReadPage(toml, fileName, text) == Err(UnclosedConfig) <==>
              StartsWith(content, Fence) && !Contains(content[|Fence|..], Fence)
    ensures var split := SplitFrontMatter(text);
            ReadPage(toml, fileName, text) == Err(ConfigParseError) <==>
              split.Ok? && split.value.0.Some? && ParseConfig(toml, split.value.0.value).Err?
  {
    SplitFrontMatterCases(text);
  }
}
