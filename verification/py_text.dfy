/**
 The handful of Python `str` and `list` operations the pipeline relies on,
 with the semantics CPython gives them: `in` on strings, `find`,
 `split(sep)` with a non-empty separator, `sep.join`, `''.join`,
 `strip`/`rstrip` over Python's whitespace set, leftmost non-overlapping
 `replace`, `startswith`, `readlines` (line terminators kept), slices with
 negative and out-of-range bounds, and list indexing with negative indices.
 */
module PyText {
  import opened Outcomes

  /** The characters for which Python's `str.isspace()` holds. */
  predicate IsSpace(c: char) {
    || c == ' '
    || '\t' <= c <= '\r'
    || '\U{1C}' <= c <= '\U{1F}'
    || c == '\U{85}' || c == '\U{A0}' || c == '\U{1680}'
    || '\U{2000}' <= c <= '\U{200A}'
    || c == '\U{2028}' || c == '\U{2029}' || c == '\U{202F}' || c == '\U{205F}' || c == '\U{3000}'
  }

  /** Every character is whitespace (`s.strip() == ''`). */
  predicate Blank(s: string) {
    forall i :: 0 <= i < |s| ==> IsSpace(s[i])
  }

  /** Neither end of `s` is whitespace: `s.strip() == s`. */
  predicate IsStripped(s: string) {
    s == [] || (!IsSpace(s[0]) && !IsSpace(s[|s| - 1]))
  }

  /** `r` is `s` with a whitespace prefix and a whitespace suffix removed, and nothing else. */
  predicate StripOf(s: string, r: string) {
    && IsStripped(r)
    && exists i, j :: 0 <= i <= j <= |s| && r == s[i..j] && Blank(s[..i]) && Blank(s[j..])
  }

  /** Python's `s.lstrip()`. */
  function LStrip(s: string): (r: string)
    ensures |r| <= |s| && r == s[|s| - |r|..]
    ensures r == [] || !IsSpace(r[0])
    ensures Blank(s[..|s| - |r|])
    decreases |s|
  {
    if |s| > 0 && IsSpace(s[0]) then
      var r := LStrip(s[1..]);
      assert s[..|s| - |r|] == [s[0]] + s[1..][..|s| - 1 - |r|];
      r
    else s
  }

  /** Python's `s.rstrip()`. */
  function RStrip(s: string): (r: string)
    ensures |r| <= |s| && r == s[..|r|]
    ensures r == [] || !IsSpace(r[|r| - 1])
    ensures Blank(s[|r|..])
    decreases |s|
  {
    if |s| > 0 && IsSpace(s[|s| - 1]) then
      var t := s[..|s| - 1];
      var r := RStrip(t);
      assert s[|r|..] == t[|r|..] + [s[|s| - 1]];
      assert r == s[..|r|] by {
        assert s[..|r|] == t[..|r|];
      }
      r
    else s
  }

  /** Python's `s.strip()`. */
  function Strip(s: string): (r: string)
    ensures StripOf(s, r)
  {
    StripParts(s);
    RStrip(LStrip(s))
  }

  lemma StripOfAt(s: string, r: string, i: nat, j: nat)
    requires IsStripped(r) && i <= j <= |s| && r == s[i..j] && Blank(s[..i]) && Blank(s[j..])
    ensures StripOf(s, r)
  {
  }

  /** Stripping the left, then the right, removes a blank prefix and a blank suffix. */
  lemma StripParts(s: string)
    ensures StripOf(s, RStrip(LStrip(s)))
  {
    var l := LStrip(s);
    StripPartsOf(s, l, RStrip(l));
  }

  /** A left-stripped `l` of `s` and a right-stripped `r` of `l` make `r` a strip of `s`. */
  lemma StripPartsOf(s: string, l: string, r: string)
    requires |l| <= |s| && l == s[|s| - |l|..] && (l == [] || !IsSpace(l[0])) && Blank(s[..|s| - |l|])
    requires |r| <= |l| && r == l[..|r|] && (r == [] || !IsSpace(r[|r| - 1])) && Blank(l[|r|..])
    ensures StripOf(s, r)
  {
    var i := |s| - |l|;
    var j := i + |r|;
    assert r == s[i..j];
    assert s[j..] == l[|r|..];
    assert IsStripped(r) by {
      if |r| > 0 {
        assert r[0] == l[0];
      }
    }
    StripOfAt(s, r, i, j);
  }

  lemma StripOfStripped(s: string)
    requires IsStripped(s)
    ensures Strip(s) == s
  {
  }

  /** `sub` occurs in `s` at index `i`. */
  predicate IsAt(s: string, sub: string, i: int) {
    0 <= i && i + |sub| <= |s| && s[i..i + |sub|] == sub
  }

  /** Python's `sub in s`. */
  predicate Contains(s: string, sub: string) {
    exists i :: 0 <= i <= |s| - |sub| && IsAt(s, sub, i)
  }

  /** The first occurrence of `sub` in `s` at or after `k`. */
  function FindFrom(s: string, sub: string, k: nat): (r: Option<nat>)
    requires k <= |s|
    ensures r.Some? ==> k <= r.value && IsAt(s, sub, r.value)
    ensures r.Some? ==> forall j :: k <= j < r.value ==> !IsAt(s, sub, j)
    ensures r.None? ==> forall j :: k <= j ==> !IsAt(s, sub, j)
    decreases |s| - k
  {
    if IsAt(s, sub, k) then Some(k)
    else if k == |s| then None
    else FindFrom(s, sub, k + 1)
  }

  /** Python's `s.find(sub)`, with `None` for -1. */
  function Find(s: string, sub: string): (r: Option<nat>)
    ensures r.Some? <==> Contains(s, sub)
    ensures r.Some? ==> IsAt(s, sub, r.value)
    ensures r.Some? ==> forall j :: 0 <= j < r.value ==> !IsAt(s, sub, j)
  {
    FindFrom(s, sub, 0)
  }

  /** An occurrence inside a prefix is an occurrence in the whole string. */
  lemma IsAtPrefix(s: string, n: nat, sub: string, j: int)
    requires n <= |s|
    ensures IsAt(s[..n], sub, j) ==> IsAt(s, sub, j)
  {
    if IsAt(s[..n], sub, j) {
      assert s[..n][j..j + |sub|] == s[j..j + |sub|];
    }
  }

  /** An occurrence inside a suffix is an occurrence in the whole string. */
  lemma IsAtSuffix(s: string, n: nat, sub: string, j: int)
    requires n <= |s|
    ensures IsAt(s[n..], sub, j) ==> IsAt(s, sub, n + j)
  {
    if IsAt(s[n..], sub, j) {
      assert s[n..][j..j + |sub|] == s[n + j..n + j + |sub|];
    }
  }

  /** Python's `s.split(sep)` for a non-empty separator. */
  function Split(s: string, sep: string): (r: seq<string>)
    requires |sep| > 0
    ensures |r| >= 1
    ensures |r| >= 2 <==> Contains(s, sep)
    ensures forall k :: 0 <= k < |r| ==> !Contains(r[k], sep)
    decreases |s|
  {
    match Find(s, sep)
    case None => [s]
    case Some(i) =>
      var head := s[..i];
      forall j | 0 <= j <= |head| - |sep|
        ensures !IsAt(head, sep, j)
      {
        IsAtPrefix(s, i, sep, j);
      }
      [head] + Split(s[i + |sep|..], sep)
  }

  /** Python's `sep.join(xs)`. */
  function Join(sep: string, xs: seq<string>): string
  {
    if |xs| == 0 then ""
    else if |xs| == 1 then xs[0]
    else xs[0] + sep + Join(sep, xs[1..])
  }

  /** Python's `''.join(xs)`. */
  function Concat(xs: seq<string>): string
  {
    if |xs| == 0 then "" else xs[0] + Concat(xs[1..])
  }

  /** `''.join` distributes over list concatenation. */
  lemma {:induction false} ConcatAppend(a: seq<string>, b: seq<string>)
    ensures Concat(a + b) == Concat(a) + Concat(b)
    decreases |a|
  {
    if |a| == 0 {
      assert a + b == b;
    } else {
      assert (a + b)[1..] == a[1..] + b;
      ConcatAppend(a[1..], b);
    }
  }

  /** The length of a join: the parts plus one separator between neighbours. */
  lemma {:induction false} JoinLength(sep: string, xs: seq<string>)
    requires |xs| >= 1
    ensures |Join(sep, xs)| == |Concat(xs)| + (|xs| - 1) * |sep|
    decreases |xs|
  {
    if |xs| > 1 {
      JoinLength(sep, xs[1..]);
    }
  }

  /** `sep.join` of two non-empty lists put one after the other. */
  lemma {:induction false} JoinAppend(sep: string, a: seq<string>, b: seq<string>)
    requires |a| > 0 && |b| > 0
    ensures Join(sep, a + b) == Join(sep, a) + sep + Join(sep, b)
    decreases |a|
  {
    if |a| > 1 {
      assert (a + b)[1..] == a[1..] + b;
      JoinAppend(sep, a[1..], b);
    } else {
      assert (a + b)[1..] == b;
    }
  }

  /** Joining the pieces of a split gives back the string. */
  lemma {:induction false} JoinSplit(s: string, sep: string)
    requires |sep| > 0
    ensures Join(sep, Split(s, sep)) == s
    decreases |s|
  {
    match Find(s, sep)
    case None =>
    case Some(i) =>
      var rest := s[i + |sep|..];
      var pieces := Split(rest, sep);
      assert Split(s, sep) == [s[..i]] + pieces;
      assert ([s[..i]] + pieces)[1..] == pieces;
      assert Join(sep, [s[..i]] + pieces) == s[..i] + sep + Join(sep, pieces);
      JoinSplit(rest, sep);
      assert s == s[..i] + sep + rest by {
        assert s[i..i + |sep|] == sep;
      }
  }

  /** No character of `s` is `c`. */
  predicate NoChar(s: string, c: char) {
    forall j :: 0 <= j < |s| ==> s[j] != c
  }

  lemma IsAtChar(s: string, c: char, j: int)
    ensures IsAt(s, [c], j) <==> 0 <= j < |s| && s[j] == c
  {
    if 0 <= j < |s| && s[j] == c {
      assert s[j..j + 1] == [c];
    }
  }

  lemma NoCharNotContains(s: string, c: char)
    ensures NoChar(s, c) <==> !Contains(s, [c])
  {
    if NoChar(s, c) {
      forall j | 0 <= j <= |s| - 1
        ensures !IsAt(s, [c], j)
      {
        IsAtChar(s, c, j);
      }
    } else {
      var j :| 0 <= j < |s| && s[j] == c;
      IsAtChar(s, c, j);
    }
  }

  /** Splitting on a one-character separator undoes a join of parts that do not contain it. */
  lemma {:induction false} SplitJoin(c: char, xs: seq<string>)
    requires |xs| >= 1
    requires forall k :: 0 <= k < |xs| ==> NoChar(xs[k], c)
    ensures Split(Join([c], xs), [c]) == xs
    decreases |xs|
  {
    var s := Join([c], xs);
    if |xs| == 1 {
      NoCharNotContains(xs[0], c);
    } else {
      var rest := Join([c], xs[1..]);
      assert s == xs[0] + [c] + rest;
      var n := |xs[0]|;
      IsAtChar(s, c, n);
      forall j | 0 <= j < n
        ensures !IsAt(s, [c], j)
      {
        IsAtChar(s, c, j);
        assert s[j] == xs[0][j];
      }
      assert Find(s, [c]) == Some(n);
      assert s[..n] == xs[0];
      assert s[n + 1..] == rest;
      SplitJoin(c, xs[1..]);
    }
  }

  /** A line as `readlines` yields it: non-empty, with a newline at most at its end. */
  predicate IsLine(l: string) {
    |l| > 0 && forall j :: 0 <= j < |l| - 1 ==> l[j] != '\n'
  }

  /** Python's `f.readlines()` on a file whose text is `t`. */
  function ReadLines(t: string): (r: seq<string>)
    ensures Concat(r) == t
    ensures forall k :: 0 <= k < |r| ==> IsLine(r[k])
    ensures forall k :: 0 <= k < |r| - 1 ==> |r[k]| > 0 && r[k][|r[k]| - 1] == '\n'
    decreases |t|
  {
    if t == [] then []
    else match Find(t, "\n")
      case None =>
        forall j | 0 <= j < |t|
          ensures t[j] != '\n'
        {
          IsAtChar(t, '\n', j);
        }
        [t]
      case Some(i) =>
        var line := t[..i + 1];
        forall j | 0 <= j < i
          ensures line[j] != '\n'
        {
          IsAtChar(t, '\n', j);
        }
        IsAtChar(t, '\n', i);
        assert t == line + t[i + 1..];
        [line] + ReadLines(t[i + 1..])
  }

  /** Python's `s.replace(pat, rep)`: leftmost non-overlapping occurrences. */
  function Replace(s: string, pat: string, rep: string): string
    requires |pat| > 0
    decreases |s|
  {
    if IsAt(s, pat, 0) then rep + Replace(s[|pat|..], pat, rep)
    else if s == [] then []
    else [s[0]] + Replace(s[1..], pat, rep)
  }

  /** Python's `s.startswith(p)`. */
  predicate StartsWith(s: string, p: string) {
    |p| <= |s| && s[..|p|] == p
  }

  /** How Python normalises one bound of a slice of a sequence of length `n`. */
  function SliceBound(i: int, n: nat): (r: nat)
    ensures r <= n
    ensures 0 <= i <= n ==> r == i
  {
    if i < 0 then (if n + i < 0 then 0 else n + i)
    else if i > n then n
    else i
  }

  /** Python's `s[i:]`. */
  function SliceFrom<T>(s: seq<T>, i: int): seq<T>
  {
    s[SliceBound(i, |s|)..]
  }

  /** Python's `s[:j]`. */
  function SliceTo<T>(s: seq<T>, j: int): seq<T>
  {
    s[..SliceBound(j, |s|)]
  }

  /** A slice `s[:j] + s[j:]` always reassembles `s`. */
  lemma SliceSplit<T>(s: seq<T>, j: int)
    ensures SliceTo(s, j) + SliceFrom(s, j) == s
  {
  }

  /** Python's `xs[i]`, negative indices counting from the end. */
  function PyGet<T>(xs: seq<T>, i: int): (r: Result<T>)
    ensures r.Ok? <==> -|xs| <= i < |xs|
    ensures 0 <= i < |xs| ==> r == Ok(xs[i])
    ensures -|xs| <= i < 0 ==> r == Ok(xs[|xs| + i])
  {
    if 0 <= i < |xs| then Ok(xs[i])
    else if -|xs| <= i < 0 then Ok(xs[|xs| + i])
    else Err(IndexError)
  }

  /** Python's `xs[i] = v`, negative indices counting from the end. */
  function PySet<T>(xs: seq<T>, i: int, v: T): (r: Result<seq<T>>)
    ensures r.Ok? <==> -|xs| <= i < |xs|
    ensures 0 <= i < |xs| ==> r == Ok(xs[i := v])
    ensures -|xs| <= i < 0 ==> r == Ok(xs[|xs| + i := v])
    ensures r.Ok? ==> |r.value| == |xs|
    ensures r.Ok? ==> forall k :: 0 <= k < |xs| ==> r.value[k] == (if k == i || k == |xs| + i then v else xs[k])
  {
    if 0 <= i < |xs| then Ok(xs[i := v])
    else if -|xs| <= i < 0 then Ok(xs[|xs| + i := v])
    else Err(IndexError)
  }

  /** Python's `s.rfind(c)` for one character, -1 when absent. */
  function LastIndex(s: string, c: char): (r: int)
    ensures -1 <= r < |s|
    ensures r >= 0 ==> s[r] == c
    ensures forall j :: r < j < |s| ==> s[j] != c
  {
    if |s| == 0 then -1
    else if s[|s| - 1] == c then |s| - 1
    else LastIndex(s[..|s| - 1], c)
  }
}
