/**
 `SourceManager.insert_in_rust`: the translated imports go in front of the
 first line of `src/main.rs` that is not part of its preamble (inner
 attributes `#![...]`, possibly spread over several lines, and blank
 lines), and the function and its wrapper are appended at the end. The
 formatter run afterwards is an oracle: it either returns the reformatted
 file or fails, and a failure is swallowed.
 */
module RustEntry {
  import opened Outcomes
  import opened PyText
  import opened Records
  import opened Workspace

  /** Whether the scan is inside an inner attribute that spans several
      lines when it reaches line `k`. */
  function InAttribute(lines: seq<string>, k: nat): bool
    requires k <= |lines|
  {
    if k == 0 then false
    else if InAttribute(lines, k - 1) then !Contains(lines[k - 1], "]")
    else StartsWith(lines[k - 1], "#!") && !Contains(lines[k - 1], "]")
  }

  /** Line `k` belongs to the preamble the imports are placed after. */
  predicate Preamble(lines: seq<string>, k: nat)
    requires k < |lines|
  {
    InAttribute(lines, k) || StartsWith(lines[k], "#!") || Blank(lines[k])
  }

  /** The scanning loop from line `k` on, `inside` being its flag there;
      the loop variable keeps its last value when the loop runs out. */
  function Scan(lines: seq<string>, k: nat, inside: bool): (r: nat)
    requires k < |lines|
    ensures k <= r < |lines|
    ensures r < |lines| - 1 ==> !StartsWith(lines[r], "#!") && !Blank(lines[r])
    decreases |lines| - k
  {
    var line := lines[k];
    if !inside && !StartsWith(line, "#!") && !Blank(line) then k
    else if k == |lines| - 1 then k
    else if inside || StartsWith(line, "#!") then Scan(lines, k + 1, !Contains(line, "]"))
    else Scan(lines, k + 1, false)
  }

  lemma {:induction false} ScanFinds(lines: seq<string>, k: nat, inside: bool)
    requires k < |lines|
    requires inside == InAttribute(lines, k)
    requires forall j :: 0 <= j < k ==> Preamble(lines, j)
    ensures var r := Scan(lines, k, inside);
            && k <= r < |lines|
            && (forall j :: 0 <= j < r ==> Preamble(lines, j))
            && (r == |lines| - 1 || !Preamble(lines, r))
    decreases |lines| - k
  {
    var line := lines[k];
    if !inside && !StartsWith(line, "#!") && !Blank(line) {
    } else if k == |lines| - 1 {
    } else if inside || StartsWith(line, "#!") {
      ScanFinds(lines, k + 1, !Contains(line, "]"));
    } else {
      ScanFinds(lines, k + 1, false);
    }
  }

  /** Where the imports are inserted: the first line outside the preamble,
      or the last line when every line belongs to it. */
  function ImportIndex(lines: seq<string>): (r: nat)
    requires |lines| > 0
    ensures r < |lines|
    ensures forall j :: 0 <= j < r ==> Preamble(lines, j)
    ensures r == |lines| - 1 || !Preamble(lines, r)
  {
    ScanFinds(lines, 0, false);
    Scan(lines, 0, false)
  }

  /** The text `insert_in_rust` writes before the formatter runs. */
  function PatchedText(contents: string, t: Translation): string
  {
    var lines := Split(contents, "\n");
    var i := ImportIndex(lines);
    Join("\n", lines[..i] + [t.imports] + lines[i..]) + "\n" + t.func + "\n" + t.wrapper
  }

  /** Inserting `x` between two parts of a joined list splices `x` and a
      separator into the joined text. */
  lemma SpliceJoin(pre: seq<string>, x: string, post: seq<string>)
    requires |post| > 0
    ensures var s := Join("\n", pre + post);
            var cut := if |pre| == 0 then 0 else |Join("\n", pre)| + 1;
            && cut <= |s|
            && (|pre| > 0 ==> s[..cut] == Join("\n", pre) + "\n")
            && Join("\n", pre + [x] + post) == s[..cut] + x + "\n" + s[cut..]
  {
    if |pre| == 0 {
      SpliceFront("\n", pre, x, post);
    } else {
      SpliceAfter("\n", pre, x, post);
    }
  }

  /** Inserting in front of a joined list. */
  lemma SpliceFront(sep: string, pre: seq<string>, x: string, post: seq<string>)
    requires |pre| == 0 && |post| > 0
    ensures Join(sep, pre + [x] + post) == x + sep + Join(sep, pre + post)
  {
    JoinAppend(sep, [x], post);
    assert Join(sep, [x]) == x;
    assert pre + [x] + post == [x] + post;
    assert pre + post == post;
  }

  /** Inserting after a non-empty part of a joined list. */
  lemma SpliceAfter(sep: string, pre: seq<string>, x: string, post: seq<string>)
    requires |pre| > 0 && |post| > 0
    ensures var s, p := Join(sep, pre + post), Join(sep, pre);
            && |p| + |sep| <= |s|
            && s[..|p| + |sep|] == p + sep
            && Join(sep, pre + [x] + post) == s[..|p| + |sep|] + x + sep + s[|p| + |sep|..]
  {
    var p, q := Join(sep, pre), Join(sep, post);
    JoinAppend(sep, [x], post);
    assert Join(sep, [x]) == x;
    JoinAppend(sep, pre, post);
    assert pre + [x] + post == pre + ([x] + post);
    JoinAppend(sep, pre, [x] + post);
    CutAfter(p, sep, q);
  }

  lemma CutAfter(p: string, sep: string, q: string)
    ensures (p + sep + q)[..|p| + |sep|] == p + sep
    ensures (p + sep + q)[|p| + |sep|..] == q
  {
  }

  /** The patched text is the old one with the imports and a line break
      spliced in at the start of the first line after the preamble, and
      the function and wrapper appended on lines of their own. */
  lemma PatchedSplice(contents: string, t: Translation)
    ensures var lines := Split(contents, "\n");
            var i := ImportIndex(lines);
            var cut := if i == 0 then 0 else |Join("\n", lines[..i])| + 1;
            && cut <= |contents|
            && (i > 0 ==> contents[..cut] == Join("\n", lines[..i]) + "\n")
            && PatchedText(contents, t)
               == contents[..cut] + t.imports + "\n" + contents[cut..] + "\n" + t.func + "\n" + t.wrapper
  {
    var lines := Split(contents, "\n");
    var i := ImportIndex(lines);
    JoinSplit(contents, "\n");
    assert lines[..i] + lines[i..] == lines;
    SpliceJoin(lines[..i], t.imports, lines[i..]);
  }

  /** What the formatter leaves in the file: its output, or the text it
      was given when it fails. */
  function Formatted(rustfmt: string -> Option<string>, text: string): string
  {
    match rustfmt(text)
    case Some(formatted) => formatted
    case None => text
  }

  /** `SourceManager.insert_in_rust(translation)`; `rustfmt` gives the
      formatter's output for a text, or `None` when it fails. */
  function InsertInRust(fs: FileStore, t: Translation, rustfmt: string -> Option<string>): (r: Result<FileStore>)
    ensures RustMain !in fs <==> r == Err(FileNotFound(RustMain))
    ensures r.Ok? ==> r.value.Keys == fs.Keys + {RustBackup}
    ensures r.Ok? ==> r.value[RustBackup] == fs[RustMain]
    ensures r.Ok? ==> r.value[RustMain] == Formatted(rustfmt, PatchedText(fs[RustMain], t))
    ensures r.Ok? ==> forall q :: q in fs && q != RustMain && q != RustBackup ==> r.value[q] == fs[q]
  {
    if RustMain !in fs then Err(FileNotFound(RustMain))
    else
      FixedPathsApart();
      Ok(fs[RustMain := Formatted(rustfmt, PatchedText(fs[RustMain], t))][RustBackup := fs[RustMain]])
  }
}
