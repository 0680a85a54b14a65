/**
 The reply layout the translation prompt asks for, and the parser's round
 trip on it: a reply made of a `<FUNC>` section and a `<WRAPPER>` section,
 with no imports section, is taken apart again into the text that was put
 between the tags, stripped. The round trip is stated for sections that
 contain no `<` and no backtick, so that no tag or code fence can start
 inside them.
 */
module ReplyFormat {
  import opened Outcomes
  import opened PyText
  import opened Records
  import opened Translator

  /** A tag opens with `<`, has the character `c` next, and no other `<`. */
  predicate Tag(s: string, c: char) {
    |s| >= 2 && s[0] == '<' && s[1] == c && NoChar(s[1..], '<')
  }

  lemma TagShapes()
    ensures Tag(FuncOpen, 'F') && Tag(FuncClose, '/')
    ensures Tag(WrapperOpen, 'W') && Tag(WrapperClose, '/')
    ensures Tag(ImportsOpen, 'I')
  {
    assert FuncOpen == "<" + "FUNC>\n";
    assert FuncClose == "<" + "/FUNC>";
    assert WrapperOpen == "<" + "WRAPPER>\n";
    assert WrapperClose == "<" + "/WRAPPER>";
    assert ImportsOpen == "<" + "IMPORTS>\n";
  }

  /** The function and the wrapper between their tags, one section per line. */
  function Tagged(f: string, w: string): string {
    FuncOpen + f + FuncClose + "\n" + WrapperOpen + w + WrapperClose
  }

  /** Where each tag of `Tagged(f, w)` starts. */
  function FuncCloseAt(f: string): nat { |FuncOpen| + |f| }
  function WrapperOpenAt(f: string): nat { FuncCloseAt(f) + |FuncClose| + 1 }
  function WrapperCloseAt(f: string, w: string): nat { WrapperOpenAt(f) + |WrapperOpen| + |w| }

  /** The pieces of `Tagged(f, w)` sit where the positions above say. */
  lemma TaggedPieces(f: string, w: string)
    ensures var r := Tagged(f, w);
      var b := FuncCloseAt(f);
      var c := WrapperOpenAt(f);
      var d := WrapperCloseAt(f, w);
      && |r| == d + |WrapperClose|
      && r[..|FuncOpen|] == FuncOpen
      && r[|FuncOpen|..b] == f
      && r[b..b + |FuncClose|] == FuncClose
      && r[b + |FuncClose|] == '\n'
      && r[c..c + |WrapperOpen|] == WrapperOpen
      && r[c + |WrapperOpen|..d] == w
      && r[d..] == WrapperClose
  {
  }

  /** With no `<` in the two sections, the tags hold the only `<` of the reply. */
  lemma TaggedAngles(f: string, w: string)
    requires NoChar(f, '<') && NoChar(w, '<')
    ensures var r := Tagged(f, w);
      forall j :: 0 < j < |r| && j != FuncCloseAt(f) && j != WrapperOpenAt(f) && j != WrapperCloseAt(f, w) ==>
        r[j] != '<'
  {
    var r := Tagged(f, w);
    var b, c, d := FuncCloseAt(f), WrapperOpenAt(f), WrapperCloseAt(f, w);
    TaggedPieces(f, w);
    TagShapes();
    forall j | 0 < j < |r| && j != b && j != c && j != d
      ensures r[j] != '<'
    {
      if j < |FuncOpen| {
        assert r[j] == r[..|FuncOpen|][j] == FuncOpen[j] == FuncOpen[1..][j - 1];
      } else if j < b {
        assert r[j] == r[|FuncOpen|..b][j - |FuncOpen|] == f[j - |FuncOpen|];
      } else if j < b + |FuncClose| {
        assert r[j] == r[b..b + |FuncClose|][j - b] == FuncClose[j - b];
        assert FuncClose[1..][j - b - 1] == FuncClose[j - b];
      } else if j < c {
        assert r[j] == '\n';
      } else if j < c + |WrapperOpen| {
        assert r[j] == r[c..c + |WrapperOpen|][j - c] == WrapperOpen[j - c];
        assert WrapperOpen[1..][j - c - 1] == WrapperOpen[j - c];
      } else if j < d {
        assert r[j] == r[c + |WrapperOpen|..d][j - c - |WrapperOpen|] == w[j - c - |WrapperOpen|];
      } else {
        assert r[j] == r[d..][j - d] == WrapperClose[j - d];
        assert WrapperClose[1..][j - d - 1] == WrapperClose[j - d];
      }
    }
  }

  /** An occurrence of `sub` starts with the first characters of `sub`. */
  lemma AtStart(s: string, sub: string, j: int)
    ensures IsAt(s, sub, j) && |sub| >= 1 ==> s[j] == sub[0]
    ensures IsAt(s, sub, j) && |sub| >= 2 ==> s[j + 1] == sub[1]
  {
    if IsAt(s, sub, j) && |sub| >= 1 {
      assert s[j..j + |sub|][0] == s[j];
    }
    if IsAt(s, sub, j) && |sub| >= 2 {
      assert s[j..j + |sub|][1] == s[j + 1];
    }
  }

  /**
   In `Tagged(f, w)` the first `<FUNC>` tag is the opening one, the first
   `<WRAPPER>` tag is the real one, and there is no `<IMPORTS>` tag.
   */
  lemma TaggedFind(f: string, w: string)
    requires NoChar(f, '<') && NoChar(w, '<')
    ensures Find(Tagged(f, w), FuncOpen) == Some(0)
    ensures Find(Tagged(f, w), WrapperOpen) == Some(WrapperOpenAt(f))
    ensures !Contains(Tagged(f, w), ImportsOpen)
  {
    var r := Tagged(f, w);
    var b, c, d := FuncCloseAt(f), WrapperOpenAt(f), WrapperCloseAt(f, w);
    TaggedPieces(f, w);
    TaggedAngles(f, w);
    TagShapes();
    assert IsAt(r, FuncOpen, 0);
    assert IsAt(r, WrapperOpen, c);
    assert r[1] == r[..|FuncOpen|][1] == FuncOpen[1];
    assert r[b + 1] == r[b..b + |FuncClose|][1] == FuncClose[1];
    assert r[c + 1] == r[c..c + |WrapperOpen|][1] == WrapperOpen[1];
    assert r[d + 1] == r[d..][1] == WrapperClose[1];
    forall j | 0 <= j < c
      ensures !IsAt(r, WrapperOpen, j)
    {
      AtStart(r, WrapperOpen, j);
    }
    forall j | 0 <= j <= |r| - |ImportsOpen|
      ensures !IsAt(r, ImportsOpen, j)
    {
      AtStart(r, ImportsOpen, j);
    }
  }

  /**
   When the text after the first `open` has no `<` for `n` characters and
   then a closing tag, `Section` is exactly those `n` characters.
   */
  lemma SectionEndsAtClose(r: string, open: string, close: string, n: nat)
    requires |open| > 0 && |close| > 0 && Contains(r, open)
    requires open[0] == '<' && close[0] == '<' && NoChar(close[1..], '<')
    requires var t := r[Find(r, open).value + |open|..];
      n + |close| <= |t| && NoChar(t[..n], '<') && IsAt(t, close, n)
    ensures Section(r, open, close) == r[Find(r, open).value + |open|..][..n]
  {
    var t := r[Find(r, open).value + |open|..];
    var x := Section(r, open, close);
    forall k | 0 <= k < n + |close| && k != n
      ensures t[k] != '<'
    {
      if k < n {
        assert t[k] == t[..n][k];
      } else {
        assert t[k] == t[n..n + |close|][k - n] == close[k - n] == close[1..][k - n - 1];
      }
    }
    forall k | 0 <= k < n + |close| && k != n
      ensures !IsAt(t, open, k) && !IsAt(t, close, k)
    {
      AtStart(t, open, k);
      AtStart(t, close, k);
    }
    if n + |close| <= |x| {
      assert x[n..n + |close|] == t[n..n + |close|];
      assert IsAt(x, close, n);
    }
    assert |x| == n;
  }

  /** The `<FUNC>` section of `Tagged(f, w)` is `f`. */
  lemma TaggedFunc(f: string, w: string)
    requires NoChar(f, '<') && NoChar(w, '<')
    ensures Contains(Tagged(f, w), FuncOpen)
    ensures Section(Tagged(f, w), FuncOpen, FuncClose) == f
  {
    var r := Tagged(f, w);
    var b := FuncCloseAt(f);
    TaggedPieces(f, w);
    TaggedFind(f, w);
    TagShapes();
    var t := r[|FuncOpen|..];
    assert t[..|f|] == r[|FuncOpen|..b];
    assert t[|f|..|f| + |FuncClose|] == r[b..b + |FuncClose|];
    SectionEndsAtClose(r, FuncOpen, FuncClose, |f|);
  }

  /** The `<WRAPPER>` section of `Tagged(f, w)` is `w`. */
  lemma TaggedWrapper(f: string, w: string)
    requires NoChar(f, '<') && NoChar(w, '<')
    ensures Contains(Tagged(f, w), WrapperOpen)
    ensures Section(Tagged(f, w), WrapperOpen, WrapperClose) == w
  {
    var r := Tagged(f, w);
    var c, d := WrapperOpenAt(f), WrapperCloseAt(f, w);
    TaggedPieces(f, w);
    TaggedFind(f, w);
    TagShapes();
    var u := r[c + |WrapperOpen|..];
    assert u[..|w|] == r[c + |WrapperOpen|..d];
    assert u[|w|..|w| + |WrapperClose|] == r[d..];
    SectionEndsAtClose(r, WrapperOpen, WrapperClose, |w|);
  }

  /**
   The parser inverts the layout: a reply with the function and the
   wrapper between their tags, and no `<` or backtick inside them, parses
   on the first try into empty imports and the two sections, stripped.
   */
  lemma ParseTagged(f: string, w: string)
    requires NoChar(f, '<') && NoChar(w, '<') && NoChar(f, '`') && NoChar(w, '`')
    ensures ParseReply(Tagged(f, w)) == Some(Translation("", Strip(f), Strip(w)))
  {
    TaggedFunc(f, w);
    TaggedWrapper(f, w);
    TaggedFind(f, w);
    assert NoChar("", '`');
    assert Strip("") == "";
  }

  /** Sections that are already stripped come back unchanged. */
  lemma ParseTaggedStripped(f: string, w: string)
    requires NoChar(f, '<') && NoChar(w, '<') && NoChar(f, '`') && NoChar(w, '`')
    requires IsStripped(f) && IsStripped(w)
    ensures ParseReply(Tagged(f, w)) == Some(Translation("", f, w))
  {
    ParseTagged(f, w);
    StripOfStripped(f);
    StripOfStripped(w);
  }
}
