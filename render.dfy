/**
 * Directives written out in their plain form, `{{ keyword arg ... }}`, and
 * the scanner and parser reading them back: for arguments that need no
 * quoting, scanning a rendered directive finds exactly its span and parses
 * exactly the directive that was written.
 */
module Rendering {
  import opened Errors
  import opened Text
  import opened Parsing

  /** A character that can appear unquoted in an argument and is never part of a brace pair. */
  predicate IsPlainChar(c: char) {
    !IsWhitespace(c) && !IsQuote(c) && c != '{' && c != '}'
  }

  /** A non-empty word of plain characters. */
  predicate IsPlainWord(w: string) {
    |w| > 0 && forall i :: 0 <= i < |w| ==> IsPlainChar(w[i])
  }

  /** Every token of the directive is a plain word. */
  predicate IsPlain(t: Template) {
    forall i :: 0 <= i < |Unparse(t)| ==> IsPlainWord(Unparse(t)[i])
  }

  /** Text made only of whitespace. */
  predicate IsBlank(pad: string) {
    forall i :: 0 <= i < |pad| ==> IsWhitespace(pad[i])
  }

  /** The tokens of a directive separated by single spaces. */
  function Body(t: Template): string
  {
    Join(Unparse(t), " ")
  }

  /** `inner` between a pair of opening and a pair of closing braces. */
  function Braced(inner: string): string
  {
    "{{" + inner + "}}"
  }

  /** The directive as it is written in a page, with `pad` inside each pair of braces. */
  function Render(t: Template, pad: string): string
  {
    Braced(pad + Body(t) + pad)
  }

  /** No keyword is spelled like another, so a keyword's position is the directive's own. */
  lemma IdIndex(t: Template)
    ensures KeywordIndex(t.Id()) == t.Index()
  {
    KeywordIndexSpec(t.Id());
    assert Keywords[0] != Keywords[1] && Keywords[0] != Keywords[2] && Keywords[0] != Keywords[3];
    assert Keywords[0] != Keywords[4] && Keywords[0] != Keywords[5] && Keywords[0] != Keywords[6];
    assert Keywords[1] != Keywords[2] && Keywords[1] != Keywords[3] && Keywords[1] != Keywords[4];
    assert Keywords[1] != Keywords[5] && Keywords[1] != Keywords[6];
    assert Keywords[2][0] != Keywords[3][0];
    assert Keywords[2] != Keywords[4] && Keywords[2] != Keywords[5] && Keywords[2] != Keywords[6];
    assert Keywords[3] != Keywords[4] && Keywords[3] != Keywords[5] && Keywords[3] != Keywords[6];
    assert Keywords[4][0] != Keywords[6][0];
    assert Keywords[4] != Keywords[5] && Keywords[5] != Keywords[6];
  }

  /** Each character of words joined by spaces is a space or a plain character, and both ends are plain. */
  lemma {:induction false} JoinedWords(ws: seq<string>)
    requires |ws| > 0
    requires forall i :: 0 <= i < |ws| ==> IsPlainWord(ws[i])
    ensures var s := Join(ws, " ");
            && |s| > 0
            && (forall i :: 0 <= i < |s| ==> s[i] == ' ' || IsPlainChar(s[i]))
            && IsPlainChar(s[0]) && IsPlainChar(s[|s| - 1])
    decreases |ws|
  {
    var n := |ws|;
    if n > 1 {
      var init := Join(ws[..n - 1], " ");
      JoinedWords(ws[..n - 1]);
      var s := Join(ws, " ");
      assert s == init + " " + ws[n - 1];
      forall i | 0 <= i < |s|
        ensures s[i] == ' ' || IsPlainChar(s[i])
      {
        if i < |init| {
          assert s[i] == init[i];
        } else if i > |init| {
          assert s[i] == ws[n - 1][i - |init| - 1];
        }
      }
    }
  }

  /** Scanning `s` from `k` on yields the tokens `ws`. */
  ghost predicate Tokenizes(s: string, k: nat, ws: seq<string>) {
    k <= |s| && TokenizeFrom(s, k) == Ok(ws)
  }

  /** A plain word that ends the text is its last token. */
  lemma TokenizeLastWord(s: string, k: nat, w: string)
    requires k <= |s| && IsPlainWord(w) && s[k..] == w
    ensures Tokenizes(s, k, [w])
  {
    assert forall i :: 0 <= i < |w| ==> s[k + i] == s[k..][i];
    assert WordEnd(s, k) == |s|;
  }

  /** What follows a word and a space. */
  lemma AfterWordSpace(s: string, k: nat, w: string, rest: string)
    requires k <= |s| && s[k..] == w + " " + rest
    ensures k + |w| + 1 <= |s| && s[k + |w| + 1..] == rest && s[k..k + |w|] == w && s[k + |w|] == ' '
  {
    var n := |w|;
    assert s[k + n] == ' ' by { assert s[k..][n] == ' '; }
    assert s[k..k + n] == w by {
      assert s[k..k + n] == s[k..][..n];
    }
    assert s[k + n + 1..] == rest by {
      assert s[k + n + 1..] == s[k..][n + 1..];
    }
  }

  /** A plain word followed by a space is a token, ahead of the tokens found after the space. */
  lemma TokenizeWordThen(s: string, k: nat, w: string, toks: seq<string>)
    requires IsPlainWord(w) && k + |w| + 1 <= |s| && s[k..k + |w|] == w && s[k + |w|] == ' '
    requires Tokenizes(s, k + |w| + 1, toks)
    ensures Tokenizes(s, k, [w] + toks)
  {
    var n := |w|;
    forall m | k <= m < k + n
      ensures IsWordChar(s[m])
    {
      assert s[m] == s[k..k + n][m - k];
    }
    var j := WordEnd(s, k);
    assert j == k + n;
    assert !IsSeparator(s[k]) && !IsQuote(s[k]) && j < |s| && IsSeparator(s[j]);
  }

  /** Plain words separated by single spaces tokenise back to the words. */
  lemma {:induction false} TokenizeWords(s: string, k: nat, ws: seq<string>)
    requires k <= |s| && |ws| > 0
    requires forall i :: 0 <= i < |ws| ==> IsPlainWord(ws[i])
    requires s[k..] == Join(ws, " ")
    ensures Tokenizes(s, k, ws)
    decreases |ws|
  {
    if |ws| == 1 {
      TokenizeLastWord(s, k, ws[0]);
      assert ws == [ws[0]];
    } else {
      JoinCons(ws, " ");
      AfterWordSpace(s, k, ws[0], Join(ws[1..], " "));
      TokenizeWords(s, k + |ws[0]| + 1, ws[1..]);
      TokenizeWordThen(s, k, ws[0], ws[1..]);
      assert [ws[0]] + ws[1..] == ws;
    }
  }

  /** Dispatching the tokens of a plain directive gives the directive back. */
  lemma DispatchUnparse(t: Template)
    ensures |Unparse(t)| > 0 && Dispatch(Unparse(t)) == Ok(t)
  {
    IdIndex(t);
    var ts := Unparse(t);
    assert ts[0] == t.Id();
    match t
    case Exec(c, args) =>
      assert ts[2..] == args;
    case _ =>
  }

  /**
   * Parsing the inner text of a rendered directive gives the directive:
   * the padding is trimmed away and the words tokenise back.
   */
  lemma TemplateOfRendered(t: Template, pad: string)
    requires IsPlain(t) && IsBlank(pad)
    ensures TemplateOf(pad + Body(t) + pad) == Ok(t)
  {
    var ws := Unparse(t);
    var x := Body(t);
    JoinedWords(ws);
    TrimPadded(pad, x, pad);
    assert x[0..] == x;
    TokenizeWords(x, 0, ws);
    TemplateOfTokens(pad + x + pad, ws);
    DispatchUnparse(t);
  }

  /**
   * Where the scanner's two searches stop in a text whose first `{` opens
   * a braced text without `}`, and the inner text they delimit.
   */
  lemma ScanBraced(prefix: string, inner: string, suffix: string)
    requires forall i :: 0 <= i < |prefix| ==> prefix[i] != '{'
    requires forall i :: 0 <= i < |inner| ==> inner[i] != '}'
    ensures var s := prefix + Braced(inner) + suffix;
            var p := |prefix|;
            && FindPair(s, '{', 0) == Some(p)
            && FindPair(s, '}', p) == Some(p + |inner| + 2)
            && Inner(s, p, p + |inner| + 3) == inner
  {
    var r := Braced(inner);
    var s := prefix + r + suffix;
    var p := |prefix|;
    var c := p + |inner| + 2;
    assert s[p..p + |r|] == r;
    assert forall i :: 0 <= i < p ==> s[i] == prefix[i];
    forall q | p <= q < p + |r|
      ensures s[q] == r[q - p]
    {
      assert s[q] == s[p..p + |r|][q - p];
    }
    assert r[0] == '{' && r[1] == '{' && r[|inner| + 2] == '}' && r[|inner| + 3] == '}';
    forall q | p + 2 <= q < c
      ensures s[q] != '}'
    {
      assert s[q] == r[q - p] == inner[q - p - 2];
    }
    SpanAt(s, p, c);
    assert Inner(s, p, c + 1) == s[p..p + |r|][2..|inner| + 2];
  }

  /** A rendered directive's inner text holds no `}`. */
  lemma RenderedInner(t: Template, pad: string)
    requires IsPlain(t) && IsBlank(pad)
    ensures var inner := pad + Body(t) + pad;
            forall i :: 0 <= i < |inner| ==> inner[i] != '}'
  {
    var x := Body(t);
    var inner := pad + x + pad;
    JoinedWords(Unparse(t));
    forall i | 0 <= i < |inner|
      ensures inner[i] != '}'
    {
      if i < |pad| {
        assert inner[i] == pad[i];
      } else if i < |pad| + |x| {
        assert inner[i] == x[i - |pad|];
      } else {
        assert inner[i] == pad[i - |pad| - |x|];
      }
    }
  }

  /**
   * `find_next_template` on a text whose first `{` opens a braced text
   * without `}` that parses as `t` reports that span and `t`.
   */
  lemma FindBraced(prefix: string, inner: string, suffix: string, t: Template)
    requires forall i :: 0 <= i < |prefix| ==> prefix[i] != '{'
    requires forall i :: 0 <= i < |inner| ==> inner[i] != '}'
    requires TemplateOf(inner) == Ok(t)
    ensures FindNextTemplate(prefix + Braced(inner) + suffix) == Ok(Some(Instance(|prefix|, |prefix| + |inner| + 3, t)))
  {
    ScanBraced(prefix, inner, suffix);
    FindNextTemplateAt(prefix + Braced(inner) + suffix, |prefix|, |prefix| + |inner| + 2, t);
  }
}
