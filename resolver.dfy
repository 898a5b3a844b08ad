/**
 * `apply_template`: the loop that trims a buffer, finds its first
 * directive, replaces that directive by what it stands for and starts
 * over, until no `{{` is left. `extends` and `use` resolve a template file
 * recursively, so resolution is a fuel-bounded function: `OutOfFuel`
 * stands for a recursion or a loop the source would not leave.
 */
module Resolver {
  import opened Errors
  import opened Text
  import opened Parsing
  import opened Pages
  import opened Rendering

  /** What a command run by `exec` reported: its exit status and its output streams as text. */
  datatype ExecOutput = ExecOutput(status: ExitStatus, stdout: string, stderr: string)

  /**
   * Everything resolution consults outside the buffer: the template files
   * by name (a name that is not there cannot be read), the commands `exec`
   * spawns (`None` when the process cannot be started), and the local
   * clock formatted with a `strftime` format.
   */
  datatype Env = Env(
    templates: map<string, string>,
    exec: (string, seq<string>) -> Option<ExecOutput>,
    clock: string -> string)

  /** The result of resolving with a bounded amount of fuel. */
  datatype Outcome = Done(text: string) | Failed(error: Error) | OutOfFuel

  /** The directive a parent template marks the place of the page body with. */
  const PageContentId: string := "pagecontent"

  /** The format `{{ currentdate }}` uses when none is given. */
  const DefaultDateFormat: string := "%Y-%m-%d %H:%M:%S"

  /** `get_template_content`: the text of the template file `name`, or `IOError`. */
  function TemplateContent(env: Env, name: string): (r: Result<string>)
    ensures r.Ok? <==> name in env.templates
    ensures r.Ok? ==> r.value == env.templates[name]
    ensures r.Err? ==> r.error == IOError
  {
    if name in env.templates then Ok(env.templates[name]) else Err(IOError)
  }

  // ---------------------------------------------------------------------
  // Navigation list

  /** A page left out of the navigation list by `navignore = true`. */
  predicate NavIgnored(p: Page) {
    p.config.Some? && p.config.value.navignore
  }

  /** The link target of a page: its configured `path`, or `/` and its name. */
  function NavPath(p: Page): string
  {
    if p.config.Some? && p.config.value.path.Some? then p.config.value.path.value else "/" + p.name
  }

  /** The attribute marking the link to the page being built. */
  function ActiveAttr(p: Page, current: Page): string
  {
    if p.name == current.name then ActiveClass else ""
  }

  /** The pieces of a link `<a href="PATH" class="active">NAME</a>`. */
  const LinkOpen: string := "<a href=\""
  const LinkAttrEnd: string := "\""
  const LinkTextStart: string := ">"
  const LinkClose: string := "</a>"
  const ActiveClass: string := " class=\"active\""

  /** The link to `p` in the navigation list of `current`. */
  function NavEntry(p: Page, current: Page): string
  {
    LinkOpen + NavPath(p) + LinkAttrEnd + ActiveAttr(p, current) + LinkTextStart + p.name + LinkClose
  }

  /** The pages that are not ignored, in the order of `pages`. */
  function Visible(pages: seq<Page>): seq<Page>
  {
    if |pages| == 0 then []
    else
      var last := pages[|pages| - 1];
      Visible(pages[..|pages| - 1]) + if NavIgnored(last) then [] else [last]
  }

  /** The listed pages are exactly the pages that are not ignored. */
  lemma {:induction false} VisibleSpec(pages: seq<Page>)
    ensures |Visible(pages)| <= |pages|
    ensures forall p :: p in Visible(pages) <==> p in pages && !NavIgnored(p)
    decreases |pages|
  {
    if |pages| > 0 {
      var init := pages[..|pages| - 1];
      VisibleSpec(init);
      assert pages == init + [pages[|pages| - 1]];
    }
  }

  /**
   * The filter keeps the order of the listing: the pages listed for a
   * concatenation are those listed for each part, in turn.
   */
  lemma {:induction false} VisibleAppend(a: seq<Page>, b: seq<Page>)
    ensures Visible(a + b) == Visible(a) + Visible(b)
    decreases |b|
  {
    if |b| == 0 {
      assert a + b == a;
    } else {
      var ab := a + b;
      assert ab[..|ab| - 1] == a + b[..|b| - 1];
      assert ab[|ab| - 1] == b[|b| - 1];
      VisibleAppend(a, b[..|b| - 1]);
    }
  }

  /** A single page is listed unless it is ignored; with `VisibleAppend` this pins `Visible` down as the filter. */
  lemma VisibleSingle(p: Page)
    ensures Visible([p]) == if NavIgnored(p) then [] else [p]
  {
    assert [p][..0] == [];
  }

  /** The links to `ps`, in order. */
  function Links(current: Page, ps: seq<Page>): seq<string>
  {
    if |ps| == 0 then [] else Links(current, ps[..|ps| - 1]) + [NavEntry(ps[|ps| - 1], current)]
  }

  /** The `i`-th link is the link to the `i`-th page. */
  lemma {:induction false} LinksSpec(current: Page, ps: seq<Page>)
    ensures |Links(current, ps)| == |ps|
    ensures forall i :: 0 <= i < |ps| ==> Links(current, ps)[i] == NavEntry(ps[i], current)
    decreases |ps|
  {
    if |ps| > 0 {
      var init := ps[..|ps| - 1];
      LinksSpec(current, init);
      var links := Links(current, ps);
      assert links == Links(current, init) + [NavEntry(ps[|ps| - 1], current)];
      forall i | 0 <= i < |ps|
        ensures links[i] == NavEntry(ps[i], current)
      {
        if i < |init| {
          assert links[i] == Links(current, init)[i];
          assert ps[i] == init[i];
        } else {
          assert links[i] == NavEntry(ps[|ps| - 1], current);
        }
      }
    }
  }

  /** One link per page that is not ignored, in the order of `pages`. */
  function NavEntries(current: Page, pages: seq<Page>): seq<string>
  {
    Links(current, Visible(pages))
  }

  /** The text `{{ navitems }}` stands for: the links, one per line. */
  function NavList(current: Page, pages: seq<Page>): string
  {
    Join(NavEntries(current, pages), "\n")
  }

  /** With no page to list, `{{ navitems }}` stands for nothing. */
  lemma {:induction false} NavListEmpty(current: Page, pages: seq<Page>)
    requires forall j :: 0 <= j < |pages| ==> NavIgnored(pages[j])
    ensures Visible(pages) == [] && NavList(current, pages) == ""
    decreases |pages|
  {
    if |pages| > 0 {
      NavListEmpty(current, pages[..|pages| - 1]);
    }
  }

  /** The loop that builds the navigation list. */
  method BuildNavList(current: Page, pages: seq<Page>) returns (s: string)
    ensures s == NavList(current, pages)
  {
    var items: seq<string> := [];
    for i := 0 to |pages|
      invariant items == Links(current, Visible(pages[..i]))
    {
      var p := pages[i];
      assert pages[..i + 1][..i] == pages[..i];
      ghost var vis := Visible(pages[..i]);
      if NavIgnored(p) {
        assert Visible(pages[..i + 1]) == vis;
        continue;
      }
      assert Visible(pages[..i + 1]) == vis + [p];
      assert (vis + [p])[..|vis|] == vis;
      var path := if p.config.Some? && p.config.value.path.Some? then p.config.value.path.value else "/" + p.name;
      var active := if p.name == current.name then ActiveClass else "";
      items := items + [LinkOpen + path + LinkAttrEnd + active + LinkTextStart + p.name + LinkClose];
    }
    assert pages[..|pages|] == pages;
    s := Join(items, "\n");
  }

  // ---------------------------------------------------------------------
  // Resolution

  /** `apply_template(content)`: the content is trimmed, then its directives are resolved. */
  function Resolve(env: Env, page: Page, pages: seq<Page>, content: string, fuel: nat): Outcome
    decreases fuel, 2
  {
    Run(env, page, pages, Trim(content), fuel)
  }

  /** The loop of `apply_template` on the buffer `buf`; each turn costs one unit of fuel. */
  function Run(env: Env, page: Page, pages: seq<Page>, buf: string, fuel: nat): Outcome
    decreases fuel, 1
  {
    if fuel == 0 then OutOfFuel
    else RunAfter(env, page, pages, buf, FindNextTemplate(buf), fuel)
  }

  /** One turn of the loop, once the scan of the buffer is known. */
  function RunAfter(env: Env, page: Page, pages: seq<Page>, buf: string, next: Result<Option<Instance>>, fuel: nat): Outcome
    requires fuel > 0
    requires next.Ok? && next.value.Some? ==> next.value.value.startPos <= next.value.value.endPos < |buf|
    decreases fuel, 0
  {
    match next
    case Err(e) => Failed(e)
    case Ok(None) => Done(buf)
    case Ok(Some(t)) => Continue(env, page, pages, Expand(env, page, pages, buf, t, fuel - 1), fuel - 1)
  }

  /** The loop goes on with the buffer a turn produced, or stops with its error. */
  function Continue(env: Env, page: Page, pages: seq<Page>, step: Outcome, fuel: nat): Outcome
    decreases fuel, 2
  {
    match step
    case Done(after) => Run(env, page, pages, after, fuel)
    case other => other
  }

  /**
   * The buffer after the directive `t` has been dealt with. `extends`
   * cuts the directive out, splices what remains into the parent template
   * in place of its `pagecontent` directive, and resolves the result;
   * every other directive is replaced by the text it stands for.
   */
  function Expand(env: Env, page: Page, pages: seq<Page>, buf: string, t: Instance, fuel: nat): Outcome
    requires t.startPos <= t.endPos < |buf|
    decreases fuel, 4
  {
    match t.template
    case Extends(name) =>
      var rest := t.RemoveBetween(buf);
      (match TemplateContent(env, name)
       case Err(e) => Failed(e)
       case Ok(parent) =>
         match FirstWithId(Trim(parent), PageContentId)
         case Err(e) => Failed(e)
         case Ok(None) => Failed(ExtendWithNoPageContent)
         case Ok(Some(marker)) => Resolve(env, page, pages, marker.InsertBetween(parent, rest), fuel))
    case _ =>
      match Replacement(env, page, pages, t.template, fuel)
      case Done(text) => Done(t.InsertBetween(buf, text))
      case other => other
  }

  /**
   * The text a directive other than `extends` stands for: a template
   * resolved on its own for `use`, the page name, the navigation list, the
   * clock, or the output of a command that succeeded; `pagecontent`
   * outside a parent template is an error.
   */
  function Replacement(env: Env, page: Page, pages: seq<Page>, t: Template, fuel: nat): Outcome
    requires !t.Extends?
    decreases fuel, 3
  {
    match t
    case Use(name) =>
      (match TemplateContent(env, name)
       case Err(e) => Failed(e)
       case Ok(text) => Resolve(env, page, pages, text, fuel))
    case PageName => Done(page.name)
    case NavItems => Done(NavList(page, pages))
    case CurrentDate(format) => Done(env.clock(format.GetOr(DefaultDateFormat)))
    case Exec(command, args) =>
      (match env.exec(command, args)
       case None => Failed(IOError)
       case Some(out) =>
         if !out.status.Success() then Failed(ExecCommandFailed(out.status, out.stderr)) else Done(out.stdout))
    case PageContent => Failed(ToplevelPageContent)
  }

  // ---------------------------------------------------------------------
  // apply_template as the source runs it

  /** A turn of the loop on a buffer whose first directive is `t`. */
  lemma RunTurn(env: Env, page: Page, pages: seq<Page>, buf: string, t: Instance, fuel: nat)
    requires fuel > 0 && FindNextTemplate(buf) == Ok(Some(t))
    ensures t.startPos <= t.endPos < |buf|
    ensures Run(env, page, pages, buf, fuel) == Continue(env, page, pages, Expand(env, page, pages, buf, t, fuel - 1), fuel - 1)
  {
  }

  /** Running the loop on `buf` with `fuel` ends in `goal`. */
  ghost predicate RunsTo(env: Env, page: Page, pages: seq<Page>, buf: string, fuel: nat, goal: Outcome) {
    Run(env, page, pages, buf, fuel) == goal
  }

  /**
   * `apply_template`: trim, then loop while a directive is found,
   * replacing the buffer by the outcome of each directive.
   */
  method ApplyTemplate(env: Env, page: Page, pages: seq<Page>, content: string, fuel: nat) returns (r: Outcome)
    ensures r == Resolve(env, page, pages, content, fuel)
    decreases fuel, 3
  {
    r := RunLoop(env, page, pages, Trim(content), fuel, Resolve(env, page, pages, content, fuel));
  }

  /** The loop of `apply_template` on the trimmed content, which ends in `goal`. */
  method RunLoop(env: Env, page: Page, pages: seq<Page>, start: string, fuel: nat, ghost goal: Outcome) returns (r: Outcome)
    requires RunsTo(env, page, pages, start, fuel, goal)
    ensures r == goal
    decreases fuel, 2
  {
    var buf := start;
    var f: nat := fuel;
    while true
      invariant f <= fuel
      invariant RunsTo(env, page, pages, buf, f, goal)
      decreases f
    {
      var stop, outcome, after := LoopBody(env, page, pages, buf, f, goal);
      if stop {
        return outcome;
      }
      buf := after;
      f := f - 1;
    }
  }

  /**
   * One pass of the loop: stop with the buffer when no directive is left,
   * with the error of the scan or of the directive, or else go on with the
   * buffer the directive produced.
   */
  method LoopBody(env: Env, page: Page, pages: seq<Page>, buf: string, fuel: nat, ghost goal: Outcome)
    returns (stop: bool, outcome: Outcome, after: string)
    requires RunsTo(env, page, pages, buf, fuel, goal)
    ensures stop ==> outcome == goal
    ensures !stop ==> fuel > 0 && RunsTo(env, page, pages, after, fuel - 1, goal)
    decreases fuel, 1
  {
    if fuel == 0 {
      return true, OutOfFuel, buf;
    }
    var next := FindNextTemplate(buf);
    assert Run(env, page, pages, buf, fuel) == RunAfter(env, page, pages, buf, next, fuel);
    if next.Err? {
      return true, Failed(next.error), buf;
    }
    if next.value.None? {
      return true, Done(buf), buf;
    }
    RunTurn(env, page, pages, buf, next.value.value, fuel);
    stop, outcome, after := DirectiveTurn(env, page, pages, buf, next.value.value, fuel);
  }

  /** The rest of the pass, once the directive `t` has been found. */
  method DirectiveTurn(env: Env, page: Page, pages: seq<Page>, buf: string, t: Instance, fuel: nat)
    returns (stop: bool, outcome: Outcome, after: string)
    requires fuel > 0 && t.startPos <= t.endPos < |buf|
    ensures var turn := Continue(env, page, pages, Expand(env, page, pages, buf, t, fuel - 1), fuel - 1);
            && (stop ==> outcome == turn)
            && (!stop ==> Run(env, page, pages, after, fuel - 1) == turn)
    decreases fuel, 0
  {
    var step := ExpandDirective(env, page, pages, buf, t, fuel - 1);
    if !step.Done? {
      return true, step, buf;
    }
    return false, step, step.text;
  }

  /** The `match` on the directive found, in the body of the loop. */
  method ExpandDirective(env: Env, page: Page, pages: seq<Page>, buf: string, t: Instance, fuel: nat) returns (step: Outcome)
    requires t.startPos <= t.endPos < |buf|
    ensures step == Expand(env, page, pages, buf, t, fuel)
    decreases fuel, 4
  {
    match t.template {
      case Extends(name) =>
        var rest := t.RemoveBetween(buf);
        if name !in env.templates {
          return Failed(IOError);
        }
        var parent := env.templates[name];
        var marker := FindTemplate(Trim(parent), PageContentId);
        if marker.Err? {
          return Failed(marker.error);
        }
        if marker.value.None? {
          return Failed(ExtendWithNoPageContent);
        }
        step := ApplyTemplate(env, page, pages, marker.value.value.InsertBetween(parent, rest), fuel);
      case Use(name) =>
        if name !in env.templates {
          return Failed(IOError);
        }
        var included := ApplyTemplate(env, page, pages, env.templates[name], fuel);
        if !included.Done? {
          return included;
        }
        step := Done(t.InsertBetween(buf, included.text));
      case PageName =>
        step := Done(t.InsertBetween(buf, page.name));
      case NavItems =>
        var nav := BuildNavList(page, pages);
        step := Done(t.InsertBetween(buf, nav));
      case CurrentDate(format) =>
        var date := env.clock(format.GetOr(DefaultDateFormat));
        step := Done(t.InsertBetween(buf, date));
      case Exec(command, args) =>
        var out := env.exec(command, args);
        if out.None? {
          return Failed(IOError);
        }
        if !out.value.status.Success() {
          return Failed(ExecCommandFailed(out.value.status, out.value.stderr));
        }
        step := Done(t.InsertBetween(buf, out.value.stdout));
      case PageContent =>
        return Failed(ToplevelPageContent);
    }
  }

  // ---------------------------------------------------------------------
  // What resolution guarantees

  /** A buffer without `{{` is the result as it stands. */
  lemma RunPlain(env: Env, page: Page, pages: seq<Page>, buf: string, fuel: nat)
    requires fuel > 0 && forall j :: !PairAt(buf, '{', j)
    ensures Run(env, page, pages, buf, fuel) == Done(buf)
  {
    FindNextTemplateCases(buf);
  }

  /** A `{{` with no `}}` after it stops resolution with `UnclosedTemplate`. */
  lemma RunUnclosed(env: Env, page: Page, pages: seq<Page>, buf: string, fuel: nat, s: int)
    requires fuel > 0 && IsUnclosedAt(buf, s)
    ensures Run(env, page, pages, buf, fuel) == Failed(UnclosedTemplate)
  {
    FindNextTemplateCases(buf);
  }

  /** The loop only stops with a result once no `{{` is left in the buffer. */
  lemma {:induction false} RunDone(env: Env, page: Page, pages: seq<Page>, buf: string, fuel: nat)
    ensures var r := Run(env, page, pages, buf, fuel);
            r.Done? ==> forall j :: !PairAt(r.text, '{', j)
    decreases fuel, 1
  {
    if fuel > 0 {
      FindNextTemplateCases(buf);
      RunAfterDone(env, page, pages, buf, FindNextTemplate(buf), fuel);
    }
  }

  lemma {:induction false} RunAfterDone(env: Env, page: Page, pages: seq<Page>, buf: string, next: Result<Option<Instance>>, fuel: nat)
    requires fuel > 0
    requires next.Ok? && next.value.Some? ==> next.value.value.startPos <= next.value.value.endPos < |buf|
    requires next == Ok(None) ==> forall j :: !PairAt(buf, '{', j)
    ensures var r := RunAfter(env, page, pages, buf, next, fuel);
            r.Done? ==> forall j :: !PairAt(r.text, '{', j)
    decreases fuel, 0
  {
    if next.Ok? && next.value.Some? {
      ContinueDone(env, page, pages, Expand(env, page, pages, buf, next.value.value, fuel - 1), fuel - 1);
    }
  }

  lemma {:induction false} ContinueDone(env: Env, page: Page, pages: seq<Page>, step: Outcome, fuel: nat)
    ensures var r := Continue(env, page, pages, step, fuel);
            r.Done? ==> forall j :: !PairAt(r.text, '{', j)
    decreases fuel, 2
  {
    if step.Done? {
      RunDone(env, page, pages, step.text, fuel);
    }
  }

  /** A resolved page or template holds no directive. */
  lemma ResolveDone(env: Env, page: Page, pages: seq<Page>, content: string, fuel: nat)
    ensures var r := Resolve(env, page, pages, content, fuel);
            r.Done? ==> forall j :: !PairAt(r.text, '{', j)
  {
    RunDone(env, page, pages, Trim(content), fuel);
  }

  /**
   * Fuel only bounds resolution: once a resolution finishes, with a
   * result or an error, more fuel gives the same answer.
   */
  lemma {:induction false} RunMono(env: Env, page: Page, pages: seq<Page>, buf: string, fuel: nat)
    requires Run(env, page, pages, buf, fuel) != OutOfFuel
    ensures Run(env, page, pages, buf, fuel + 1) == Run(env, page, pages, buf, fuel)
    decreases fuel, 1
  {
    RunAfterMono(env, page, pages, buf, FindNextTemplate(buf), fuel);
  }

  lemma {:induction false} RunAfterMono(env: Env, page: Page, pages: seq<Page>, buf: string, next: Result<Option<Instance>>, fuel: nat)
    requires fuel > 0
    requires next.Ok? && next.value.Some? ==> next.value.value.startPos <= next.value.value.endPos < |buf|
    requires RunAfter(env, page, pages, buf, next, fuel) != OutOfFuel
    ensures RunAfter(env, page, pages, buf, next, fuel + 1) == RunAfter(env, page, pages, buf, next, fuel)
    decreases fuel, 0
  {
    if next.Ok? && next.value.Some? {
      var t := next.value.value;
      var step := Expand(env, page, pages, buf, t, fuel - 1);
      ExpandMono(env, page, pages, buf, t, fuel - 1);
      ContinueMono(env, page, pages, step, fuel - 1);
    }
  }

  lemma {:induction false} ContinueMono(env: Env, page: Page, pages: seq<Page>, step: Outcome, fuel: nat)
    requires Continue(env, page, pages, step, fuel) != OutOfFuel
    ensures Continue(env, page, pages, step, fuel + 1) == Continue(env, page, pages, step, fuel)
    decreases fuel, 2
  {
    if step.Done? {
      RunMono(env, page, pages, step.text, fuel);
    }
  }

  lemma {:induction false} ExpandMono(env: Env, page: Page, pages: seq<Page>, buf: string, t: Instance, fuel: nat)
    requires t.startPos <= t.endPos < |buf|
    requires Expand(env, page, pages, buf, t, fuel) != OutOfFuel
    ensures Expand(env, page, pages, buf, t, fuel + 1) == Expand(env, page, pages, buf, t, fuel)
    decreases fuel, 4
  {
    match t.template
    case Extends(name) =>
      var parent := TemplateContent(env, name);
      if parent.Ok? {
        var marker := FirstWithId(Trim(parent.value), PageContentId);
        if marker.Ok? && marker.value.Some? {
          ResolveMono(env, page, pages, marker.value.value.InsertBetween(parent.value, t.RemoveBetween(buf)), fuel);
        }
      }
    case _ =>
      ReplacementMono(env, page, pages, t.template, fuel);
  }

  lemma {:induction false} ReplacementMono(env: Env, page: Page, pages: seq<Page>, t: Template, fuel: nat)
    requires !t.Extends? && Replacement(env, page, pages, t, fuel) != OutOfFuel
    ensures Replacement(env, page, pages, t, fuel + 1) == Replacement(env, page, pages, t, fuel)
    decreases fuel, 3
  {
    if t.Use? && t.name in env.templates {
      ResolveMono(env, page, pages, env.templates[t.name], fuel);
    }
  }

  lemma {:induction false} ResolveMono(env: Env, page: Page, pages: seq<Page>, content: string, fuel: nat)
    requires Resolve(env, page, pages, content, fuel) != OutOfFuel
    ensures Resolve(env, page, pages, content, fuel + 1) == Resolve(env, page, pages, content, fuel)
    decreases fuel, 2
  {
    if fuel > 0 {
      RunMono(env, page, pages, Trim(content), fuel);
    }
  }

  /** More fuel never changes a finished resolution. */
  lemma {:induction false} ResolveFuel(env: Env, page: Page, pages: seq<Page>, content: string, fuel: nat, more: nat)
    requires fuel <= more && Resolve(env, page, pages, content, fuel) != OutOfFuel
    ensures Resolve(env, page, pages, content, more) == Resolve(env, page, pages, content, fuel)
    decreases more - fuel
  {
    if fuel < more {
      ResolveMono(env, page, pages, content, fuel);
      ResolveFuel(env, page, pages, content, fuel + 1, more);
    }
  }

  /**
   * A template whose first directive uses the template itself never
   * finishes resolving, whatever the fuel: the source recurses without
   * end.
   */
  lemma {:induction false} SelfUse(env: Env, page: Page, pages: seq<Page>, name: string, t: Instance, fuel: nat)
    requires name in env.templates
    requires FindNextTemplate(Trim(env.templates[name])) == Ok(Some(t)) && t.template == Use(name)
    ensures Resolve(env, page, pages, env.templates[name], fuel) == OutOfFuel
    decreases fuel
  {
    if fuel > 0 {
      SelfUse(env, page, pages, name, t, fuel - 1);
      var buf := Trim(env.templates[name]);
      RunTurn(env, page, pages, buf, t, fuel);
      UseOutOfFuel(env, page, pages, buf, t, name, fuel);
    }
  }

  /** A `use` whose template runs out of fuel makes the whole turn run out of fuel. */
  lemma UseOutOfFuel(env: Env, page: Page, pages: seq<Page>, buf: string, t: Instance, name: string, fuel: nat)
    requires fuel > 0 && t.startPos <= t.endPos < |buf|
    requires t.template == Use(name) && name in env.templates
    requires Resolve(env, page, pages, env.templates[name], fuel - 1) == OutOfFuel
    ensures Continue(env, page, pages, Expand(env, page, pages, buf, t, fuel - 1), fuel - 1) == OutOfFuel
  {
    assert Replacement(env, page, pages, t.template, fuel - 1) == OutOfFuel;
    assert Expand(env, page, pages, buf, t, fuel - 1) == OutOfFuel;
  }

  // ---------------------------------------------------------------------
  // One rendered directive

  /** Replacing the braced text right after `prefix` leaves `prefix` and `suffix` around the new text. */
  lemma SpliceRendered(prefix: string, inner: string, suffix: string, rep: string, t: Template)
    ensures var i := Instance(|prefix|, |prefix| + |inner| + 3, t);
            var buf := prefix + Braced(inner) + suffix;
            i.startPos <= i.endPos < |buf| && i.InsertBetween(buf, rep) == prefix + rep + suffix
  {
    var buf := prefix + Braced(inner) + suffix;
    var e := |prefix| + |inner| + 3;
    assert buf[..|prefix|] == prefix;
    assert buf[e + 1..] == suffix;
  }

  /**
   * A turn of the loop on a buffer whose first `{` opens a directive
   * written in plain form (other than `extends`): the directive is
   * replaced by the text it stands for, or the turn fails as that
   * directive does.
   */
  lemma RunRendered(env: Env, page: Page, pages: seq<Page>, prefix: string, t: Template, pad: string, suffix: string, fuel: nat)
    requires forall i :: 0 <= i < |prefix| ==> prefix[i] != '{'
    requires IsPlain(t) && IsBlank(pad) && !t.Extends?
    ensures var r := Replacement(env, page, pages, t, fuel);
            Run(env, page, pages, prefix + Render(t, pad) + suffix, fuel + 1) ==
              if r.Done? then Run(env, page, pages, prefix + r.text + suffix, fuel) else r
  {
    var inner := pad + Body(t) + pad;
    var buf := prefix + Braced(inner) + suffix;
    var i := Instance(|prefix|, |prefix| + |inner| + 3, t);
    RenderedInner(t, pad);
    TemplateOfRendered(t, pad);
    FindBraced(prefix, inner, suffix, t);
    RunTurn(env, page, pages, buf, i, fuel + 1);
    ExpandReplaced(env, page, pages, prefix, inner, suffix, t, fuel);
  }

  /** `Expand` on the directive found right after `prefix`. */
  lemma ExpandReplaced(env: Env, page: Page, pages: seq<Page>, prefix: string, inner: string, suffix: string, t: Template, fuel: nat)
    requires !t.Extends?
    ensures var i := Instance(|prefix|, |prefix| + |inner| + 3, t);
            var buf := prefix + Braced(inner) + suffix;
            && i.startPos <= i.endPos < |buf|
            && var r := Replacement(env, page, pages, t, fuel);
               Continue(env, page, pages, Expand(env, page, pages, buf, i, fuel), fuel) ==
                 if r.Done? then Run(env, page, pages, prefix + r.text + suffix, fuel) else r
  {
    var r := Replacement(env, page, pages, t, fuel);
    if r.Done? {
      SpliceRendered(prefix, inner, suffix, r.text, t);
    } else {
      SpliceRendered(prefix, inner, suffix, "", t);
    }
  }

  // ---------------------------------------------------------------------
  // Where `extends` splices

  /**
   * The `pagecontent` directive is looked for in the trimmed parent, but
   * its positions are used in the untrimmed parent. Without leading
   * whitespace the two agree: the splice cuts out exactly the text the
   * directive occupies.
   */
  lemma SpliceExact(parent: string, marker: Instance, body: string)
    requires LeadingWhitespace(parent) == 0
    requires marker.startPos <= marker.endPos < |Trim(parent)|
    ensures parent[marker.startPos..marker.endPos + 1] == Trim(parent)[marker.startPos..marker.endPos + 1]
    ensures marker.InsertBetween(parent, body) == Trim(parent)[..marker.startPos] + body + parent[marker.endPos + 1..]
  {
    TrimSlice(parent);
    var x := Trim(parent);
    var st := marker.startPos;
    var e := marker.endPos;
    assert x == parent[0..|x|];
    SubSlice(parent, 0, |x|, st, e + 1);
    SubSlice(parent, 0, |x|, 0, st);
    assert x[..st] == x[0..st] == parent[0..st] == parent[..st];
  }

  /**
   * The marker `extends` splices at is a `pagecontent` directive of the
   * trimmed parent, found as `FirstWithIdSpec` describes; without leading
   * whitespace it sits at the same positions in the parent itself, so the
   * splice cuts out a `{{ … }}` span of the parent whose inner text parses
   * to `pagecontent`.
   */
  lemma ExtendsMarker(parent: string, marker: Instance)
    requires FirstWithId(Trim(parent), PageContentId) == Ok(Some(marker))
    ensures marker.template == PageContent
    ensures LeadingWhitespace(parent) == 0 ==> DirectiveAt(parent, marker.startPos, marker.endPos, PageContent)
  {
    FoundWithIdAt(Trim(parent), PageContentId, marker);
    IsPageContent(marker.template);
    TrimFront(parent);
    SpanAtFront(parent, LeadingWhitespace(parent), Trim(parent), marker.startPos, marker.endPos, marker.template);
  }

  /** `x` sits `w` characters into `p`. */
  ghost predicate SitsAt(p: string, w: int, x: string) {
    0 <= w && w + |x| <= |p| && x == p[w..w + |x|]
  }

  /** The trimmed text sits after the leading whitespace. */
  lemma TrimFront(s: string)
    ensures SitsAt(s, LeadingWhitespace(s), Trim(s))
  {
    TrimSlice(s);
  }

  /** A directive of `x` is a directive of `p` at the same positions when `x` starts `p`. */
  lemma SpanAtFront(p: string, w: int, x: string, s: int, e: int, tt: Template)
    requires SitsAt(p, w, x) && DirectiveAt(x, s, e, tt)
    ensures w == 0 ==> DirectiveAt(p, s, e, tt)
  {
    if w == 0 {
      SubSlice(p, 0, |x|, s, e + 1);
      SameSpan(p, x, s, e);
    }
  }

  /** Only `pagecontent` has the keyword `pagecontent`. */
  lemma IsPageContent(t: Template)
    requires t.Id() == PageContentId
    ensures t == PageContent
  {
    assert "currentdate"[0] != PageContentId[0];
  }

  /** Two strings that agree on `[s, e]` agree on the braces and the inner text of that span. */
  lemma SameSpan(p: string, x: string, s: nat, e: nat)
    requires s + 2 < e < |x| && e < |p| && p[s..e + 1] == x[s..e + 1]
    ensures PairAt(p, '{', s) <==> PairAt(x, '{', s)
    ensures PairAt(p, '}', e - 1) <==> PairAt(x, '}', e - 1)
    ensures Inner(p, s, e) == Inner(x, s, e)
  {
    assert p[s] == p[s..e + 1][0] == x[s];
    assert p[s + 1] == p[s..e + 1][1] == x[s + 1];
    assert p[e - 1] == p[s..e + 1][e - 1 - s] == x[e - 1];
    assert p[e] == p[s..e + 1][e - s] == x[e];
    SubSlice(p, s, e + 1, 2, e - 1 - s);
    SubSlice(x, s, e + 1, 2, e - 1 - s);
  }

  /**
   * With `w` characters of leading whitespace in the parent (at most the
   * directive's length), the directive sits `w` characters further on
   * than the splice, so the last `w` characters of the directive (its
   * closing braces first) survive right after the spliced-in body.
   */
  lemma SpliceShifted(parent: string, marker: Instance, body: string)
    requires marker.startPos <= marker.endPos < |Trim(parent)|
    requires 0 < LeadingWhitespace(parent) <= marker.endPos - marker.startPos + 1
    ensures var w := LeadingWhitespace(parent);
            var x := Trim(parent);
            && marker.endPos + 1 + w <= |parent|
            && parent[marker.startPos + w..marker.endPos + 1 + w] == x[marker.startPos..marker.endPos + 1]
            && |marker.InsertBetween(parent, body)| >= marker.startPos + |body| + w
            && marker.InsertBetween(parent, body)[marker.startPos + |body|..marker.startPos + |body| + w] ==
                 x[marker.endPos + 1 - w..marker.endPos + 1]
  {
    TrimSlice(parent);
    ShiftedWindow(parent, LeadingWhitespace(parent), Trim(parent), marker.startPos, marker.endPos, body);
  }

  /** `SpliceShifted` on plain strings: `x` sits `w` characters into `p`. */
  lemma ShiftedWindow(p: string, w: nat, x: string, s: nat, e: nat, body: string)
    requires w + |x| <= |p| && x == p[w..w + |x|]
    requires s <= e < |x| && 0 < w <= e - s + 1
    ensures e + 1 + w <= |p|
    ensures p[s + w..e + 1 + w] == x[s..e + 1]
    ensures var r := p[..s] + body + p[e + 1..];
            |r| >= s + |body| + w && r[s + |body|..s + |body| + w] == x[e + 1 - w..e + 1]
  {
    SubSlice(p, w, w + |x|, s, e + 1);
    assert x[s..e + 1] == p[s + w..e + 1 + w];
    SubSlice(p, w, w + |x|, e + 1 - w, e + 1);
    assert x[e + 1 - w..e + 1] == p[e + 1..e + 1 + w];
    var r := p[..s] + body + p[e + 1..];
    var tail := p[e + 1..];
    assert r[s + |body|..] == tail;
    SubSlice(r, s + |body|, |r|, 0, w);
    assert r[s + |body|..s + |body| + w] == tail[..w];
    SubSlice(p, e + 1, |p|, 0, w);
    assert tail[..w] == p[e + 1..e + 1 + w];
  }

  // ---------------------------------------------------------------------
  // Enough fuel

  /**
   * An environment in which no directive can bring in a `{`: there are no
   * template files, and the page name, the navigation list, every date
   * and every command output are free of `{`.
   */
  ghost predicate Flat(env: Env, page: Page, pages: seq<Page>) {
    && env.templates == map[]
    && '{' !in page.name
    && '{' !in NavList(page, pages)
    && (forall f :: '{' !in env.clock(f))
    && (forall c, a :: env.exec(c, a).Some? ==> '{' !in env.exec(c, a).value.stdout)
  }

  /** Replacing a span that starts with `{{` by text without `{` removes at least two `{`. */
  lemma CountSplice(buf: string, i: Instance, rep: string)
    requires i.startPos + 1 <= i.endPos < |buf| && PairAt(buf, '{', i.startPos)
    requires '{' !in rep
    ensures Count('{', i.InsertBetween(buf, rep)) + 2 <= Count('{', buf)
  {
    var s := i.startPos;
    var e := i.endPos;
    SplitThree(buf, s, e + 1);
    CountReplaced('{', buf[..s], buf[s..e + 1], buf[e + 1..], rep);
  }

  /** The loop on `buf` ends, with text or an error, within `fuel` turns. */
  ghost predicate Finishes(env: Env, page: Page, pages: seq<Page>, buf: string, fuel: nat) {
    Run(env, page, pages, buf, fuel) != OutOfFuel
  }

  /**
   * In a flat environment resolution never runs out of fuel once it has
   * one more unit than the buffer has `{`: each turn removes at least two.
   */
  lemma {:induction false} RunFlat(env: Env, page: Page, pages: seq<Page>, buf: string, fuel: nat)
    requires Flat(env, page, pages) && fuel > Count('{', buf)
    ensures Finishes(env, page, pages, buf, fuel)
    decreases fuel, 2
  {
    FlatTurn(env, page, pages, buf, FindNextTemplate(buf), fuel);
  }

  /** The turn after the scanner reported `next`, which, when it is a directive, starts with `{{`. */
  lemma {:induction false} FlatTurn(env: Env, page: Page, pages: seq<Page>, buf: string, next: Result<Option<Instance>>, fuel: nat)
    requires Flat(env, page, pages) && fuel > Count('{', buf)
    requires next.Ok? && next.value.Some? ==>
               var t := next.value.value;
               t.startPos + 1 <= t.endPos < |buf| && PairAt(buf, '{', t.startPos)
    ensures RunAfter(env, page, pages, buf, next, fuel) != OutOfFuel
    decreases fuel, 1
  {
    if next.Ok? && next.value.Some? {
      FlatDirective(env, page, pages, buf, next.value.value, fuel);
    }
  }

  /** The turn on the directive `t`: it does not run out of fuel, and the loop after it finishes. */
  lemma {:induction false} FlatDirective(env: Env, page: Page, pages: seq<Page>, buf: string, t: Instance, fuel: nat)
    requires Flat(env, page, pages) && fuel > 0 && fuel > Count('{', buf)
    requires t.startPos + 1 <= t.endPos < |buf| && PairAt(buf, '{', t.startPos)
    ensures RunAfter(env, page, pages, buf, Ok(Some(t)), fuel) != OutOfFuel
    decreases fuel, 0
  {
    FlatExpand(env, page, pages, buf, t, fuel - 1);
    var step := Expand(env, page, pages, buf, t, fuel - 1);
    if step.Done? {
      RunFlat(env, page, pages, step.text, fuel - 1);
    }
  }

  /** In a flat environment a directive either fails or is replaced by text without `{`. */
  lemma FlatExpand(env: Env, page: Page, pages: seq<Page>, buf: string, t: Instance, fuel: nat)
    requires Flat(env, page, pages)
    requires t.startPos + 1 <= t.endPos < |buf| && PairAt(buf, '{', t.startPos)
    ensures var step := Expand(env, page, pages, buf, t, fuel);
            && !step.OutOfFuel?
            && (step.Done? ==> Count('{', step.text) + 2 <= Count('{', buf))
  {
    var step := Expand(env, page, pages, buf, t, fuel);
    if step.Done? {
      var r := Replacement(env, page, pages, t.template, fuel);
      assert r.Done? && '{' !in r.text && step.text == t.InsertBetween(buf, r.text);
      CountSplice(buf, t, r.text);
    }
  }

  /** A page resolves within one more turn than it has `{` in a flat environment. */
  lemma ResolveFlat(env: Env, page: Page, pages: seq<Page>, content: string)
    requires Flat(env, page, pages)
    ensures Resolve(env, page, pages, content, Count('{', content) + 1) != OutOfFuel
  {
    CountTrim('{', content);
    RunFlat(env, page, pages, Trim(content), Count('{', content) + 1);
  }
}
