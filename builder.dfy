/**
 * `Builder::build`: the page files are sorted by file name and loaded,
 * then each page is resolved and written to its output path. The file
 * system is a listing of the pages directory; the writes are returned in
 * order instead of being performed.
 */
module Builder {
  import opened Errors
  import opened Text
  import opened Pages
  import opened Resolver

  /** An entry of the pages directory: its file name and its text, or `None` when it cannot be read. */
  datatype DirEntry = DirEntry(fileName: string, text: Option<string>)

  /** A file written into the target directory. */
  datatype Write = Write(path: string, content: string)

  /** The result of a build: the files written, or the error that stopped it. */
  datatype BuildOutcome = Built(writes: seq<Write>) | BuildFailed(error: Error) | BuildOutOfFuel

  // ---------------------------------------------------------------------
  // Sorting by file name

  /** The order of file names: code point by code point, a proper prefix first. */
  predicate NameLe(a: string, b: string)
    decreases |a|
  {
    |a| == 0 || (|b| > 0 && (a[0] < b[0] || (a[0] == b[0] && NameLe(a[1..], b[1..]))))
  }

  lemma {:induction false} NameLeTotal(a: string, b: string)
    ensures NameLe(a, b) || NameLe(b, a)
    decreases |a|
  {
    if |a| > 0 && |b| > 0 && a[0] == b[0] {
      NameLeTotal(a[1..], b[1..]);
    }
  }

  lemma {:induction false} NameLeAntisymmetric(a: string, b: string)
    requires NameLe(a, b) && NameLe(b, a)
    ensures a == b
    decreases |a|
  {
    if |a| > 0 {
      NameLeAntisymmetric(a[1..], b[1..]);
      assert a == [a[0]] + a[1..] && b == [b[0]] + b[1..];
    }
  }

  lemma {:induction false} NameLeTransitive(a: string, b: string, c: string)
    requires NameLe(a, b) && NameLe(b, c)
    ensures NameLe(a, c)
    decreases |a|
  {
    if |a| > 0 && a[0] == b[0] && b[0] == c[0] {
      NameLeTransitive(a[1..], b[1..], c[1..]);
    }
  }

  /** Entries in ascending order of file name. */
  predicate SortedByName(es: seq<DirEntry>) {
    forall i :: 0 <= i < |es| - 1 ==> NameLe(es[i].fileName, es[i + 1].fileName)
  }

  /** `x` put before the first entry of `s` whose name it does not follow. */
  function Insert(x: DirEntry, s: seq<DirEntry>): (r: seq<DirEntry>)
    ensures |r| == |s| + 1
  {
    if |s| == 0 then [x]
    else if NameLe(x.fileName, s[0].fileName) then [x] + s
    else [s[0]] + Insert(x, s[1..])
  }

  /** `entries.sort_by_key(|e| e.file_name())`, as an insertion sort. */
  function SortByName(es: seq<DirEntry>): (r: seq<DirEntry>)
    ensures |r| == |es|
  {
    if |es| == 0 then [] else Insert(es[0], SortByName(es[1..]))
  }

  lemma {:induction false} InsertSpec(x: DirEntry, s: seq<DirEntry>)
    requires SortedByName(s)
    ensures SortedByName(Insert(x, s))
    ensures multiset(Insert(x, s)) == multiset(s) + multiset{x}
    ensures |Insert(x, s)| > 0
    ensures Insert(x, s)[0] == x || (|s| > 0 && Insert(x, s)[0] == s[0])
    decreases |s|
  {
    if |s| > 0 && !NameLe(x.fileName, s[0].fileName) {
      var rest := s[1..];
      assert SortedByName(rest) by {
        forall i | 0 <= i < |rest| - 1
          ensures NameLe(rest[i].fileName, rest[i + 1].fileName)
        {
          assert rest[i] == s[i + 1] && rest[i + 1] == s[i + 2];
        }
      }
      InsertSpec(x, rest);
      NameLeTotal(x.fileName, s[0].fileName);
      var r := [s[0]] + Insert(x, rest);
      forall i | 0 <= i < |r| - 1
        ensures NameLe(r[i].fileName, r[i + 1].fileName)
      {
        if i > 0 {
          assert r[i] == Insert(x, rest)[i - 1] && r[i + 1] == Insert(x, rest)[i];
        }
      }
      assert s == [s[0]] + rest;
    }
  }

  /** Sorting orders the entries by file name and keeps every entry. */
  lemma {:induction false} SortByNameSpec(es: seq<DirEntry>)
    ensures SortedByName(SortByName(es))
    ensures multiset(SortByName(es)) == multiset(es)
    decreases |es|
  {
    if |es| > 0 {
      SortByNameSpec(es[1..]);
      SortStep(es[0], es[1..], SortByName(es[1..]));
      assert es == [es[0]] + es[1..];
    }
  }

  /** Inserting the first entry into the sorted rest gives a sorted permutation of all of them. */
  lemma SortStep(x: DirEntry, rest: seq<DirEntry>, tail: seq<DirEntry>)
    requires SortedByName(tail) && multiset(tail) == multiset(rest)
    ensures SortedByName(Insert(x, tail)) && multiset(Insert(x, tail)) == multiset([x] + rest)
  {
    InsertSpec(x, tail);
  }

  /** In sorted entries, any entry's name precedes every later one's. */
  lemma {:induction false} SortedPairwise(es: seq<DirEntry>, i: nat, j: nat)
    requires SortedByName(es) && i <= j < |es|
    ensures NameLe(es[i].fileName, es[j].fileName)
    decreases j - i
  {
    if i == j {
      NameLeReflexive(es[i].fileName);
    } else {
      SortedPairwise(es, i + 1, j);
      NameLeTransitive(es[i].fileName, es[i + 1].fileName, es[j].fileName);
    }
  }

  lemma {:induction false} NameLeReflexive(a: string)
    ensures NameLe(a, a)
    decreases |a|
  {
    if |a| > 0 {
      NameLeReflexive(a[1..]);
    }
  }

  // ---------------------------------------------------------------------
  // Loading

  /** `Page::read` on one entry: an entry that cannot be read is `IOError`. */
  function LoadEntry(toml: TomlParser, e: DirEntry): Result<Page>
  {
    match e.text
    case None => Err(IOError)
    case Some(text) => ReadPage(toml, e.fileName, text)
  }

  /** Every entry loaded in order, or the error of the first one that fails. */
  function LoadPages(toml: TomlParser, es: seq<DirEntry>): Result<seq<Page>>
    decreases |es|
  {
    if |es| == 0 then Ok([])
    else
      var first :- LoadEntry(toml, es[0]);
      var rest :- LoadPages(toml, es[1..]);
      Ok([first] + rest)
  }

  /** Loading succeeds exactly when every entry loads, and then gives one page per entry, in order. */
  lemma {:induction false} LoadPagesOk(toml: TomlParser, es: seq<DirEntry>)
    ensures LoadPages(toml, es).Ok? <==> forall i :: 0 <= i < |es| ==> LoadEntry(toml, es[i]).Ok?
    ensures var r := LoadPages(toml, es);
            r.Ok? ==> |r.value| == |es| && forall i :: 0 <= i < |es| ==> Ok(r.value[i]) == LoadEntry(toml, es[i])
    decreases |es|
  {
    if |es| > 0 {
      var rest := es[1..];
      LoadPagesOk(toml, rest);
      assert forall i :: 0 < i < |es| ==> es[i] == rest[i - 1];
      var first := LoadEntry(toml, es[0]);
      var tail := LoadPages(toml, rest);
      assert LoadPages(toml, es) == if first.Err? then Err(first.error) else if tail.Err? then Err(tail.error) else Ok([first.value] + tail.value);
    }
  }

  /** Loading that fails fails with the error of the first entry that does not load. */
  lemma {:induction false} LoadPagesErr(toml: TomlParser, es: seq<DirEntry>)
    ensures var r := LoadPages(toml, es);
            r.Err? ==> exists k :: && 0 <= k < |es| && LoadEntry(toml, es[k]) == Err(r.error)
                                   && forall i :: 0 <= i < k ==> LoadEntry(toml, es[i]).Ok?
    decreases |es|
  {
    var r := LoadPages(toml, es);
    if |es| > 0 && r.Err? {
      if LoadEntry(toml, es[0]).Ok? {
        var rest := es[1..];
        LoadPagesErr(toml, rest);
        var k :| && 0 <= k < |rest| && LoadEntry(toml, rest[k]) == Err(r.error)
                 && forall i :: 0 <= i < k ==> LoadEntry(toml, rest[i]).Ok?;
        assert es[k + 1] == rest[k];
        assert forall i :: 0 < i < k + 1 ==> es[i] == rest[i - 1];
      }
    }
  }

  // ---------------------------------------------------------------------
  // Output paths

  /**
   * `Path::join`: an absolute path replaces the base; otherwise the two
   * are separated by one `/` unless the base is empty or already ends
   * with one.
   */
  function JoinPath(base: string, path: string): (r: string)
    ensures IsAbsolute(path) ==> r == path
    ensures !IsAbsolute(path) ==>
              && |r| >= |base| + |path|
              && r[|r| - |path|..] == path
              && r[..|base|] == base
  {
    if IsAbsolute(path) then path
    else if !NeedsSeparator(base) then base + path
    else base + "/" + path
  }

  const IndexFile: string := "index.html"

  /** Where a page is written: its configured `output`, or `NAME/index.html`, under the target directory. */
  function OutputPath(target: string, p: Page): string
  {
    if p.config.Some? && p.config.value.output.Some? then JoinPath(target, p.config.value.output.value)
    else JoinPath(JoinPath(target, p.name), IndexFile)
  }

  /** `path` starts at the root. */
  predicate IsAbsolute(path: string) {
    |path| > 0 && path[0] == '/'
  }

  /** `base` is a non-empty path without a trailing `/`, so a relative path joined to it gets a `/` between. */
  predicate NeedsSeparator(base: string) {
    |base| > 0 && base[|base| - 1] != '/'
  }

  /**
   * A page with an output path configured is written there: at that path
   * itself when it is absolute, else under the target directory. Any
   * other page is written at `NAME/index.html` under the target directory,
   * or at `NAME/index.html` when its name is an absolute path.
   */
  lemma OutputPathSpec(target: string, p: Page)
    ensures p.config.Some? && p.config.value.output.Some? ==>
              var o := p.config.value.output.value;
              && (IsAbsolute(o) ==> OutputPath(target, p) == o)
              && (!IsAbsolute(o) && NeedsSeparator(target) ==> OutputPath(target, p) == target + "/" + o)
              && (!IsAbsolute(o) && !NeedsSeparator(target) ==> OutputPath(target, p) == target + o)
    ensures !(p.config.Some? && p.config.value.output.Some?) ==>
              var r := OutputPath(target, p);
              && r[|r| - |IndexFile|..] == IndexFile
              && (!IsAbsolute(p.name) ==> r[..|target|] == target)
              && (IsAbsolute(p.name) && NeedsSeparator(p.name) ==> r == p.name + "/" + IndexFile)
              && (!IsAbsolute(p.name) && NeedsSeparator(target) && NeedsSeparator(p.name) ==>
                    r == target + "/" + p.name + "/" + IndexFile)
  {
    var dir := JoinPath(target, p.name);
    if !IsAbsolute(p.name) {
      assert dir[..|target|] == target;
      var r := JoinPath(dir, IndexFile);
      assert r[..|dir|] == dir;
      assert r[..|target|] == dir[..|target|];
      if NeedsSeparator(target) && NeedsSeparator(p.name) {
        assert dir == target + "/" + p.name;
        assert dir[|dir| - 1] == p.name[|p.name| - 1];
      }
    }
  }

  // ---------------------------------------------------------------------
  // The build

  /** Resolving the content of `page` against all the `pages` gives `outcome`. */
  ghost predicate Resolves(env: Env, page: Page, pages: seq<Page>, fuel: nat, outcome: Outcome) {
    Resolve(env, page, pages, page.content, fuel) == outcome
  }

  /** What resolving each page against all the pages gives, page by page. */
  function Outcomes(env: Env, pages: seq<Page>, fuel: nat): (r: seq<Outcome>)
    ensures |r| == |pages|
  {
    seq(|pages|, k requires 0 <= k < |pages| => Resolve(env, pages[k], pages, pages[k].content, fuel))
  }

  /** The writes for the pages from the `i`-th on, given each page's outcome; the first failure stops it. */
  function WritesFrom(target: string, pages: seq<Page>, outcomes: seq<Outcome>, i: nat): BuildOutcome
    requires |outcomes| == |pages| && i <= |pages|
    decreases |pages| - i
  {
    if i == |pages| then Built([])
    else
      match outcomes[i]
      case Failed(e) => BuildFailed(e)
      case OutOfFuel => BuildOutOfFuel
      case Done(text) =>
        var rest := WritesFrom(target, pages, outcomes, i + 1);
        if rest.Built? then Built([Write(OutputPath(target, pages[i]), text)] + rest.writes) else rest
  }

  /** `build` once the pages directory has been listed: sort, load, then resolve and write each page. */
  function Build(env: Env, toml: TomlParser, target: string, entries: seq<DirEntry>, fuel: nat): BuildOutcome
  {
    match LoadPages(toml, SortByName(entries))
    case Err(e) => BuildFailed(e)
    case Ok(pages) => WritesFrom(target, pages, Outcomes(env, pages, fuel), 0)
  }

  /**
   * Successful writes hold one file per page from the `i`-th on, in the
   * order of the pages: the resolved text at the page's output path.
   */
  lemma {:induction false} WritesFromBuilt(target: string, pages: seq<Page>, outcomes: seq<Outcome>, i: nat)
    requires |outcomes| == |pages| && i <= |pages|
    ensures var r := WritesFrom(target, pages, outcomes, i);
            r.Built? ==> && |r.writes| == |pages| - i
                         && forall k :: i <= k < |pages| ==>
                              && outcomes[k] == Done(r.writes[k - i].content)
                              && r.writes[k - i].path == OutputPath(target, pages[k])
    decreases |pages| - i
  {
    if i < |pages| {
      WritesFromBuilt(target, pages, outcomes, i + 1);
      var r := WritesFrom(target, pages, outcomes, i);
      var rest := WritesFrom(target, pages, outcomes, i + 1);
      if r.Built? {
        var w := Write(OutputPath(target, pages[i]), outcomes[i].text);
        assert r.writes == [w] + rest.writes;
        forall k | i <= k < |pages|
          ensures outcomes[k] == Done(r.writes[k - i].content) && r.writes[k - i].path == OutputPath(target, pages[k])
        {
          if k > i {
            assert r.writes[k - i] == rest.writes[k - (i + 1)];
          }
        }
      }
    }
  }

  /** The writes succeed exactly when every page from the `i`-th on resolves. */
  lemma {:induction false} WritesFromDone(target: string, pages: seq<Page>, outcomes: seq<Outcome>, i: nat)
    requires |outcomes| == |pages| && i <= |pages|
    ensures WritesFrom(target, pages, outcomes, i).Built? <==> forall k :: i <= k < |pages| ==> outcomes[k].Done?
    decreases |pages| - i
  {
    if i < |pages| {
      WritesFromDone(target, pages, outcomes, i + 1);
    }
  }

  /** A build that fails stops at the first page that does not resolve, with that page's error. */
  lemma {:induction false} WritesFromStopped(target: string, pages: seq<Page>, outcomes: seq<Outcome>, i: nat)
    requires |outcomes| == |pages| && i <= |pages|
    ensures var r := WritesFrom(target, pages, outcomes, i);
            !r.Built? ==> exists k :: && i <= k < |pages| && !outcomes[k].Done?
                                      && (forall j :: i <= j < k ==> outcomes[j].Done?)
                                      && (if r.BuildFailed? then outcomes[k] == Failed(r.error) else outcomes[k].OutOfFuel?)
    decreases |pages| - i
  {
    var r := WritesFrom(target, pages, outcomes, i);
    if i < |pages| && !r.Built? && outcomes[i].Done? {
      WritesFromStopped(target, pages, outcomes, i + 1);
    }
  }

  /** Each outcome is the page resolved from its own content, against all the pages. */
  lemma OutcomesSpec(env: Env, pages: seq<Page>, fuel: nat, k: nat)
    requires k < |pages|
    ensures Resolves(env, pages[k], pages, fuel, Outcomes(env, pages, fuel)[k])
  {
  }

  /** `writes` are the files of the first `i` pages, and the build ends as the rest of it does. */
  ghost predicate WrittenUpTo(target: string, pages: seq<Page>, outcomes: seq<Outcome>, writes: seq<Write>, i: nat)
    requires |outcomes| == |pages| && i <= |pages|
  {
    WritesFrom(target, pages, outcomes, 0) ==
      var rest := WritesFrom(target, pages, outcomes, i);
      if rest.Built? then Built(writes + rest.writes) else rest
  }

  /** A page that resolved adds its file to what has been written. */
  lemma WrittenStep(target: string, pages: seq<Page>, outcomes: seq<Outcome>, writes: seq<Write>, i: nat)
    requires |outcomes| == |pages| && i < |pages| && outcomes[i].Done?
    requires WrittenUpTo(target, pages, outcomes, writes, i)
    ensures WrittenUpTo(target, pages, outcomes, writes + [Write(OutputPath(target, pages[i]), outcomes[i].text)], i + 1)
  {
    var w := Write(OutputPath(target, pages[i]), outcomes[i].text);
    var rest := WritesFrom(target, pages, outcomes, i + 1);
    if rest.Built? {
      assert WritesFrom(target, pages, outcomes, i) == Built([w] + rest.writes);
      assert writes + ([w] + rest.writes) == (writes + [w]) + rest.writes;
    }
  }

  /** A page that did not resolve ends the build with its error. */
  lemma WrittenStop(target: string, pages: seq<Page>, outcomes: seq<Outcome>, writes: seq<Write>, i: nat)
    requires |outcomes| == |pages| && i < |pages| && !outcomes[i].Done?
    requires WrittenUpTo(target, pages, outcomes, writes, i)
    ensures WritesFrom(target, pages, outcomes, 0) ==
              if outcomes[i].Failed? then BuildFailed(outcomes[i].error) else BuildOutOfFuel
  {
  }

  /** The loop of `build` over the loaded pages. */
  method RenderPages(env: Env, target: string, pages: seq<Page>, fuel: nat) returns (r: BuildOutcome)
    ensures r == WritesFrom(target, pages, Outcomes(env, pages, fuel), 0)
  {
    ghost var outcomes := Outcomes(env, pages, fuel);
    var writes: seq<Write> := [];
    for i := 0 to |pages|
      invariant WrittenUpTo(target, pages, outcomes, writes, i)
    {
      var parsed := ApplyTemplate(env, pages[i], pages, pages[i].content, fuel);
      assert parsed == outcomes[i];
      if !parsed.Done? {
        WrittenStop(target, pages, outcomes, writes, i);
        if parsed.Failed? {
          return BuildFailed(parsed.error);
        }
        return BuildOutOfFuel;
      }
      var outpath := OutputPath(target, pages[i]);
      WrittenStep(target, pages, outcomes, writes, i);
      writes := writes + [Write(outpath, parsed.text)];
    }
    assert writes + [] == writes;
    return Built(writes);
  }

  /**
   * A successful build writes one file per page file, in the order of
   * their sorted names: each page is loaded from its file, resolved
   * against all the pages, and written at its output path.
   */
  lemma BuildWrites(env: Env, toml: TomlParser, target: string, entries: seq<DirEntry>, fuel: nat)
    ensures var r := Build(env, toml, target, entries, fuel);
            var sorted := SortByName(entries);
            r.Built? ==> && LoadPages(toml, sorted).Ok?
                         && var pages := LoadPages(toml, sorted).value;
                            && |r.writes| == |entries| == |pages|
                            && forall k :: 0 <= k < |entries| ==>
                                 && LoadEntry(toml, sorted[k]) == Ok(pages[k])
                                 && r.writes[k].path == OutputPath(target, pages[k])
                                 && Resolves(env, pages[k], pages, fuel, Done(r.writes[k].content))
  {
    var sorted := SortByName(entries);
    LoadPagesOk(toml, sorted);
    if LoadPages(toml, sorted).Ok? {
      var pages := LoadPages(toml, sorted).value;
      var outcomes := Outcomes(env, pages, fuel);
      forall k | 0 <= k < |pages|
        ensures Resolves(env, pages[k], pages, fuel, outcomes[k])
      {
        OutcomesSpec(env, pages, fuel, k);
      }
      PagesWritten(env, target, pages, outcomes, fuel);
    }
  }

  /** The writes of resolved pages, each page's text at its output path. */
  lemma PagesWritten(env: Env, target: string, pages: seq<Page>, outcomes: seq<Outcome>, fuel: nat)
    requires |outcomes| == |pages|
    requires forall k :: 0 <= k < |pages| ==> Resolves(env, pages[k], pages, fuel, outcomes[k])
    ensures var r := WritesFrom(target, pages, outcomes, 0);
            r.Built? ==> && |r.writes| == |pages|
                         && forall k :: 0 <= k < |pages| ==>
                              && r.writes[k].path == OutputPath(target, pages[k])
                              && Resolves(env, pages[k], pages, fuel, Done(r.writes[k].content))
  {
    var r := WritesFrom(target, pages, outcomes, 0);
    WritesFromBuilt(target, pages, outcomes, 0);
    if r.Built? {
      forall k | 0 <= k < |pages|
        ensures Resolves(env, pages[k], pages, fuel, Done(r.writes[k].content))
      {
        assert outcomes[k] == Done(r.writes[k - 0].content);
        assert Resolves(env, pages[k], pages, fuel, outcomes[k]);
      }
    }
  }


  /**
   * A failed build fails with the error of the first page file that does
   * not load, or, when all load, with the error of a page that does not
   * resolve.
   */
  lemma BuildFails(env: Env, toml: TomlParser, target: string, entries: seq<DirEntry>, fuel: nat)
    ensures var r := Build(env, toml, target, entries, fuel);
            var loaded := LoadPages(toml, SortByName(entries));
            r.BuildFailed? ==> || loaded == Err(r.error)
                               || (&& loaded.Ok?
                                   && exists k :: 0 <= k < |loaded.value| &&
                                        Resolves(env, loaded.value[k], loaded.value, fuel, Failed(r.error)))
  {
    var loaded := LoadPages(toml, SortByName(entries));
    if loaded.Ok? {
      var pages := loaded.value;
      var outcomes := Outcomes(env, pages, fuel);
      WritesFromStopped(target, pages, outcomes, 0);
      if Build(env, toml, target, entries, fuel).BuildFailed? {
        var k :| && 0 <= k < |pages| && !outcomes[k].Done?
                 && (forall j :: 0 <= j < k ==> outcomes[j].Done?)
                 && outcomes[k] == Failed(Build(env, toml, target, entries, fuel).error);
        OutcomesSpec(env, pages, fuel, k);
      }
    }
  }

  /** `build` once the pages directory has been listed. */
  method BuildSite(env: Env, toml: TomlParser, target: string, entries: seq<DirEntry>, fuel: nat) returns (r: BuildOutcome)
    ensures r == Build(env, toml, target, entries, fuel)
  {
    var sorted := SortByName(entries);
    var loaded := LoadPages(toml, sorted);
    if loaded.Err? {
      return BuildFailed(loaded.error);
    }
    r := RenderPages(env, target, loaded.value, fuel);
  }
}
