/**
 The SourceManager of the translation pipeline: reading a function's span
 out of its C file, commenting that span out, patching the Rust entry file,
 extending the bindgen blocklist, and restoring all three from their `.old`
 backups.

 The output directory is a map from paths (relative to the directory) to
 file texts. A file's text is what Python reads after universal-newline
 translation, so line ends are `'\n'`.
 */
module Workspace {
  import opened Outcomes
  import opened PyText
  import opened Records

  type FileStore = map<string, string>

  const CSourceDir: string := "c_src/"
  const RustMain: string := "src/main.rs"
  const Blocklist: string := "bindgen_blocklist.txt"
  const CargoToml: string := "Cargo.toml"

  /** The backups `with_suffix('.old')` names for the Rust entry file and the blocklist (see `RustMainOld`, `BlocklistOld`). */
  const RustBackup: string := "src/main.old"
  const BlocklistBackup: string := "bindgen_blocklist.old"

  /** The C comment marker the pipeline inserts. */
  const Marker: string := "// "

  /** The C file that defines a function. */
  function CPath(filename: string): string {
    CSourceDir + filename
  }

  predicate EndsWith(s: string, p: string) {
    |p| <= |s| && s[|s| - |p|..] == p
  }

  /** `Path(p).with_suffix('.old')`: the last component's suffix (a dot
      that is neither its first nor its last character, and what follows)
      is replaced by `.old`, or `.old` is appended when there is none. */
  function OldPath(p: string): string {
    Stem(p) + ".old"
  }

  /** What `with_suffix` keeps of `p`: all of it up to the suffix of its last component. */
  function Stem(p: string): string {
    var k := LastIndex(p, '/') + 1;
    StemAt(p, k, LastIndex(p[k..], '.'))
  }

  /** The stem when the last component starts at `k` and its last dot is at `dot` within it. */
  function StemAt(p: string, k: nat, dot: int): string
    requires k <= |p|
  {
    if 0 < dot < |p| - k - 1 then p[..k + dot] else p
  }

  lemma LastIndexIs(s: string, c: char, i: int)
    requires -1 <= i < |s|
    requires i >= 0 ==> s[i] == c
    requires forall j :: i < j < |s| ==> s[j] != c
    ensures LastIndex(s, c) == i
  {
  }

  lemma RustMainOld()
    ensures OldPath(RustMain) == RustBackup
  {
    var p := RustMain;
    LastIndexIs(p, '/', 3);
    assert p[4..] == "main.rs";
    LastIndexIs(p[4..], '.', 4);
  }

  lemma BlocklistOld()
    ensures OldPath(Blocklist) == BlocklistBackup
  {
    var p := Blocklist;
    LastIndexIs(p, '/', -1);
    LastIndexIs(p, '.', 17);
  }

  /** The backup keeps the first character of the path (so it stays in the same top-level directory). */
  lemma OldPathHead(p: string)
    requires |p| > 0
    ensures |OldPath(p)| > 0 && OldPath(p)[0] == p[0]
  {
  }

  /** A path outside `c_src/` is neither a C file nor the backup of one. */
  lemma NotCFile(p: string, filename: string)
    requires |p| > 0 && p[0] != CSourceDir[0]
    ensures p != CPath(filename) && p != OldPath(CPath(filename))
  {
    OldPathHead(CPath(filename));
  }

  /** A path is its own backup only when it already ends in `.old`. */
  lemma OldPathMoves(p: string)
    ensures OldPath(p) == p ==> EndsWith(p, ".old")
  {
    var k := LastIndex(p, '/') + 1;
    var name := p[k..];
    var dot := LastIndex(name, '.');
    if 0 < dot < |name| - 1 {
      var q := p[..k + dot] + ".old";
      assert OldPath(p) == q;
      if q == p {
        assert q[|q| - 4..] == ".old";
      }
    } else {
      assert |OldPath(p)| == |p| + 4;
    }
  }

  lemma OldTail(p: string)
    requires EndsWith(p, ".old")
    ensures forall j :: |p| - 4 <= j < |p| ==> p[j] != '/' && (p[j] == '.' <==> j == |p| - 4)
  {
    forall j | |p| - 4 <= j < |p|
      ensures p[j] != '/' && (p[j] == '.' <==> j == |p| - 4)
    {
      assert p[j] == p[|p| - 4..][j - (|p| - 4)];
    }
  }

  /** A path whose last component ends in `.old` after at least one other
      character is its own backup. */
  lemma OldPathOwn(p: string)
    requires EndsWith(p, ".old") && |p| > 4 && p[|p| - 5] != '/'
    ensures OldPath(p) == p
  {
    OldTail(p);
    var k := LastIndex(p, '/') + 1;
    assert k <= |p| - 5;
    var name := p[k..];
    NameTail(p, k);
    LastIndexIs(name, '.', |name| - 4);
    OldPathAt(p, k, |name| - 4);
    assert p == p[..|p| - 4] + ".old";
  }

  /** The last component keeps the `.old` ending of its path. */
  lemma NameTail(p: string, k: nat)
    requires EndsWith(p, ".old") && k <= |p| - 5
    ensures EndsWith(p[k..], ".old")
  {
    assert p[k..][|p| - k - 4..] == p[|p| - 4..];
  }

  /** The stem when the last component has a proper suffix starting at `dot`. */
  lemma OldPathAt(p: string, k: nat, dot: int)
    requires k == LastIndex(p, '/') + 1 && dot == LastIndex(p[k..], '.')
    requires 0 < dot < |p| - k - 1
    ensures Stem(p) == p[..k + dot]
  {
  }

  /** The three live files the pipeline touches for one function and their
      backups are six distinct paths, unless the C file itself ends in `.old`. */
  predicate PathsApart(filename: string) {
    var c, co := CPath(filename), OldPath(CPath(filename));
    var rm, rmo, bl, blo := RustMain, RustBackup, Blocklist, BlocklistBackup;
    && c != co && c != rm && c != rmo && c != bl && c != blo
    && co != rm && co != rmo && co != bl && co != blo
    && rm != rmo && rm != bl && rm != blo
    && rmo != bl && rmo != blo
    && bl != blo
  }

  lemma PathsDistinct(filename: string)
    requires !EndsWith(CPath(filename), ".old")
    ensures PathsApart(filename)
  {
    var c := CPath(filename);
    OldPathHead(c);
    OldPathMoves(c);
    FixedPathsApart();
    assert c[0] == 'c';
    HeadsDiffer(c, RustMain);
    HeadsDiffer(c, RustBackup);
    HeadsDiffer(c, Blocklist);
    HeadsDiffer(c, BlocklistBackup);
    HeadsDiffer(OldPath(c), RustMain);
    HeadsDiffer(OldPath(c), RustBackup);
    HeadsDiffer(OldPath(c), Blocklist);
    HeadsDiffer(OldPath(c), BlocklistBackup);
  }

  lemma HeadsDiffer(a: string, b: string)
    ensures |a| > 0 && |b| > 0 && a[0] != b[0] ==> a != b
  {
  }

  /** The Rust entry file, the blocklist and their backups are four distinct paths. */
  lemma FixedPathsApart()
    ensures RustMain[0] == 's' && RustBackup[0] == 's'
    ensures Blocklist[0] == 'b' && BlocklistBackup[0] == 'b'
    ensures RustMain != RustBackup && Blocklist != BlocklistBackup
  {
    LiteralPathsApart(RustMain, RustBackup, Blocklist, BlocklistBackup);
  }

  lemma LiteralPathsApart(rm: string, rmo: string, bl: string, blo: string)
    requires rm == "src/main.rs" && rmo == "src/main.old"
    requires bl == "bindgen_blocklist.txt" && blo == "bindgen_blocklist.old"
    ensures rm[0] == 's' && rmo[0] == 's' && bl[0] == 'b' && blo[0] == 'b'
    ensures rm != rmo && bl != blo
  {
    assert rm[9] != rmo[9];
    assert bl[18] != blo[18];
  }

  // ---------------------------------------------------------------------
  // extract_body

  /** `lines[i]` for `i` in `range(lo, hi)`, concatenated. */
  function Interior(lines: seq<string>, lo: int, hi: int): Result<string>
    decreases hi - lo
  {
    if lo >= hi then Ok("")
    else
      var l :- PyGet(lines, lo);
      var rest :- Interior(lines, lo + 1, hi);
      Ok(l + rest)
  }

  /** `extract_body` on the lines of the file: the first line from
      `startCol - 1`, the lines strictly between, and the last line up to
      `endCol`. Python's negative indices and clamped slices apply. */
  function ExtractLines(lines: seq<string>, startLine: int, startCol: int, endLine: int, endCol: int): Result<string>
  {
    var first :- PyGet(lines, startLine - 1);
    var middle :- Interior(lines, startLine, endLine - 1);
    var last :- PyGet(lines, endLine - 1);
    Ok(SliceFrom(first, startCol - 1) + middle + SliceTo(last, endCol))
  }

  /** `SourceManager.extract_body(func)`. */
  function ExtractBody(fs: FileStore, f: FuncRecord): (r: Result<string>)
    ensures CPath(f.filename) !in fs ==> r == Err(FileNotFound(CPath(f.filename)))
  {
    var p := CPath(f.filename);
    if p !in fs then Err(FileNotFound(p))
    else ExtractLines(ReadLines(fs[p]), f.startLine, f.startCol, f.endLine, f.endCol)
  }

  lemma {:induction false} InteriorConcat(lines: seq<string>, lo: int, hi: int)
    requires 0 <= lo <= hi <= |lines|
    ensures Interior(lines, lo, hi) == Ok(Concat(lines[lo..hi]))
    decreases hi - lo
  {
    if lo < hi {
      InteriorConcat(lines, lo + 1, hi);
      assert lines[lo..hi] == [lines[lo]] + lines[lo + 1..hi];
      assert ([lines[lo]] + lines[lo + 1..hi])[1..] == lines[lo + 1..hi];
    }
  }

  lemma ConcatSingle(x: string)
    ensures Concat([x]) == x
  {
    assert [x][1..] == [];
  }

  /** `Concat` of a list made of five consecutive parts, two of them single lines. */
  lemma ConcatFive(a: seq<string>, x: string, b: seq<string>, y: string, c: seq<string>)
    ensures Concat(a + [x] + b) == Concat(a) + x + Concat(b)
    ensures Concat(a + [x] + b + [y] + c) == Concat(a) + x + Concat(b) + y + Concat(c)
  {
    ConcatSingle(x);
    ConcatSingle(y);
    ConcatAppend(a, [x]);
    ConcatAppend(a + [x], b);
    ConcatAppend(a + [x] + b, [y]);
    ConcatAppend(a + [x] + b + [y], c);
  }

  /** A list cut around two of its positions. */
  lemma SplitAround<T>(xs: seq<T>, i: nat, j: nat)
    requires i < j < |xs|
    ensures xs[..j] == xs[..i] + [xs[i]] + xs[i + 1..j]
    ensures xs == xs[..i] + [xs[i]] + xs[i + 1..j] + [xs[j]] + xs[j + 1..]
  {
  }

  lemma ConcatAround(lines: seq<string>, i: nat, j: nat)
    requires i < j < |lines|
    ensures Concat(lines) == Concat(lines[..i]) + lines[i] + Concat(lines[i + 1..j]) + lines[j] + Concat(lines[j + 1..])
    ensures Concat(lines[..j]) == Concat(lines[..i]) + lines[i] + Concat(lines[i + 1..j])
  {
    SplitAround(lines, i, j);
    ConcatFive(lines[..i], lines[i], lines[i + 1..j], lines[j], lines[j + 1..]);
  }

  lemma SliceMiddle(x: string, b: string, y: string, c: string, z: string, p: nat, q: nat)
    requires p <= |b| && q <= |c|
    ensures (x + b + y + c + z)[|x| + p..|x| + |b| + |y| + q] == b[p..] + y + c[..q]
  {
    var t := x + b + y + c + z;
    var u := b[p..] + y + c[..q];
    assert |t[|x| + p..|x| + |b| + |y| + q]| == |u|;
    forall k | 0 <= k < |u|
      ensures t[|x| + p + k] == u[k]
    {
      if k < |b| - p {
      } else if k < |b| - p + |y| {
      } else {
      }
    }
  }

  /** For a span over several lines with columns inside their lines,
      `extract_body` returns exactly the file text from column `startCol`
      of `startLine` through column `endCol` of `endLine`. */
  lemma ExtractSpan(lines: seq<string>, startLine: int, startCol: int, endLine: int, endCol: int)
    requires 1 <= startLine < endLine <= |lines|
    requires 1 <= startCol <= |lines[startLine - 1]| + 1
    requires 0 <= endCol <= |lines[endLine - 1]|
    ensures var text := Concat(lines);
            var from := |Concat(lines[..startLine - 1])| + startCol - 1;
            var to := |Concat(lines[..endLine - 1])| + endCol;
            from <= to <= |text| &&
            ExtractLines(lines, startLine, startCol, endLine, endCol) == Ok(text[from..to])
  {
    var i, j := startLine - 1, endLine - 1;
    ConcatAround(lines, i, j);
    InteriorConcat(lines, startLine, j);
    SliceMiddle(Concat(lines[..i]), lines[i], Concat(lines[i + 1..j]), lines[j], Concat(lines[j + 1..]), startCol - 1, endCol);
  }

  /** On a one-line span `extract_body` does not return the span: it
      returns the rest of the line from `startCol`, newline included,
      followed by the line's first `endCol` characters. */
  lemma ExtractSingleLine(lines: seq<string>, line: int, startCol: int, endCol: int)
    requires 1 <= line <= |lines|
    requires 1 <= startCol <= |lines[line - 1]| + 1
    requires 0 <= endCol <= |lines[line - 1]|
    ensures ExtractLines(lines, line, startCol, line, endCol)
         == Ok(lines[line - 1][startCol - 1..] + lines[line - 1][..endCol])
  {
    var l := lines[line - 1];
    assert PyGet(lines, line - 1) == Ok(l);
    assert Interior(lines, line, line - 1) == Ok("");
    assert SliceFrom(l, startCol - 1) == l[startCol - 1..];
    assert SliceTo(l, endCol) == l[..endCol];
    assert l[startCol - 1..] + "" + l[..endCol] == l[startCol - 1..] + l[..endCol];
  }

  /** A concrete one-line function: its text comes back twice. */
  lemma ExtractSingleLineExample()
    ensures ExtractLines(["int f() { return 0; }\n"], 1, 1, 1, 21)
         == Ok("int f() { return 0; }\n" + "int f() { return 0; }")
  {
    var l := "int f() { return 0; }\n";
    ExtractSingleLine([l], 1, 1, 21);
    assert l[0..] == l;
    assert l[..21] == "int f() { return 0; }";
  }

  // ---------------------------------------------------------------------
  // comment_out_in_c

  /** `[line.rstrip() for line in lines]` */
  function RStripAll(lines: seq<string>): (r: seq<string>)
    ensures |r| == |lines|
    ensures forall k :: 0 <= k < |r| ==> r[k] == RStrip(lines[k])
  {
    seq(|lines|, k requires 0 <= k < |lines| => RStrip(lines[k]))
  }

  /** `for i in range(lo, hi): lines[i] = '// ' + lines[i]` */
  function MarkInterior(lines: seq<string>, lo: int, hi: int): Result<seq<string>>
    decreases hi - lo
  {
    if lo >= hi then Ok(lines)
    else
      var l :- PyGet(lines, lo);
      var marked :- PySet(lines, lo, Marker + l);
      MarkInterior(marked, lo + 1, hi)
  }

  /** The list of lines `comment_out_in_c` joins with `'\n'` and writes back. */
  function CommentLines(lines: seq<string>, startLine: int, startCol: int, endLine: int, endCol: int): Result<seq<string>>
  {
    CommentStripped(RStripAll(lines), startLine, startCol, endLine, endCol)
  }

  /** The same, from the point where every line has been right-stripped. */
  function CommentStripped(stripped: seq<string>, startLine: int, startCol: int, endLine: int, endCol: int): Result<seq<string>>
  {
    var first :- PyGet(stripped, startLine - 1);
    var withFirst :- PySet(stripped, startLine - 1, SliceTo(first, startCol - 1) + Marker + SliceFrom(first, startCol - 1));
    var withInterior :- MarkInterior(withFirst, startLine, endLine - 1);
    var last :- PyGet(withInterior, endLine - 1);
    var tail := SliceFrom(last, endCol);
    PySet(withInterior, endLine - 1,
          if tail != "" then Marker + SliceTo(last, endCol) + "\n" + tail else Marker + last)
  }

  /** `SourceManager.comment_out_in_c(func)`: the file is rewritten, then
      its `.old` backup is written from the lines read before any change. */
  function CommentOut(fs: FileStore, f: FuncRecord): (r: Result<FileStore>)
    ensures CPath(f.filename) !in fs ==> r == Err(FileNotFound(CPath(f.filename)))
    ensures r.Ok? ==> r.value.Keys == fs.Keys + {OldPath(CPath(f.filename))}
    ensures r.Ok? ==> r.value[OldPath(CPath(f.filename))] == fs[CPath(f.filename)]
    ensures r.Ok? ==> forall q :: q in fs && q != CPath(f.filename) && q != OldPath(CPath(f.filename)) ==> r.value[q] == fs[q]
    ensures r.Ok? ==> r.value == fs[CPath(f.filename) := r.value[CPath(f.filename)]][OldPath(CPath(f.filename)) := fs[CPath(f.filename)]]
  {
    var p := CPath(f.filename);
    if p !in fs then Err(FileNotFound(p))
    else
      var oldLines := ReadLines(fs[p]);
      var lines :- CommentLines(oldLines, f.startLine, f.startCol, f.endLine, f.endCol);
      WriteTwo(fs, p, Join("\n", lines), OldPath(p), Concat(oldLines));
      Ok(fs[p := Join("\n", lines)][OldPath(p) := Concat(oldLines)])
  }

  /** Writing a file and then another one: which paths exist and what the others hold. */
  lemma WriteTwo(fs: FileStore, p: string, x: string, o: string, y: string)
    requires p in fs
    ensures fs[p := x][o := y].Keys == fs.Keys + {o}
    ensures fs[p := x][o := y][o] == y
    ensures forall q :: q in fs && q != p && q != o ==> fs[p := x][o := y][q] == fs[q]
    ensures fs[p := x][o := y] == fs[p := fs[p := x][o := y][p]][o := y]
  {
  }

  /** Every line prefixed with the marker. */
  function MarkAll(xs: seq<string>): (r: seq<string>)
    ensures |r| == |xs|
    ensures forall k :: 0 <= k < |xs| ==> r[k] == Marker + xs[k]
  {
    seq(|xs|, k requires 0 <= k < |xs| => Marker + xs[k])
  }

  /** Every line with its first three characters dropped. */
  function UnmarkAll(xs: seq<string>): (r: seq<string>)
    requires forall k :: 0 <= k < |xs| ==> |xs[k]| >= 3
  {
    seq(|xs|, k requires 0 <= k < |xs| => xs[k][3..])
  }

  lemma {:induction false} MarkInteriorSegments(xs: seq<string>, lo: int, hi: int)
    requires 0 <= lo <= hi <= |xs|
    ensures MarkInterior(xs, lo, hi) == Ok(xs[..lo] + MarkAll(xs[lo..hi]) + xs[hi..])
    decreases hi - lo
  {
    if lo == hi {
      assert MarkAll(xs[lo..hi]) == [];
      assert xs[..lo] + [] + xs[hi..] == xs;
    } else {
      var v := Marker + xs[lo];
      var ys := xs[lo := v];
      MarkInteriorStep(xs, lo, hi);
      MarkInteriorSegments(ys, lo + 1, hi);
      UpdateAround(xs, lo, hi, v);
      MarkAllCons(xs[lo], xs[lo + 1..hi]);
      Regroup(xs[..lo], v, MarkAll(xs[lo + 1..hi]), xs[hi..]);
    }
  }

  /** One step of the marking loop. */
  lemma MarkInteriorStep(xs: seq<string>, lo: int, hi: int)
    requires 0 <= lo < hi <= |xs|
    ensures MarkInterior(xs, lo, hi) == MarkInterior(xs[lo := Marker + xs[lo]], lo + 1, hi)
  {
  }

  /** The parts of a list around the position updated. */
  lemma UpdateAround<T>(xs: seq<T>, lo: int, hi: int, v: T)
    requires 0 <= lo < hi <= |xs|
    ensures xs[lo := v][..lo + 1] == xs[..lo] + [v]
    ensures xs[lo := v][lo + 1..hi] == xs[lo + 1..hi]
    ensures xs[lo := v][hi..] == xs[hi..]
    ensures xs[lo..hi] == [xs[lo]] + xs[lo + 1..hi]
  {
  }

  lemma MarkAllCons(x: string, xs: seq<string>)
    ensures MarkAll([x] + xs) == [Marker + x] + MarkAll(xs)
  {
  }

  lemma Regroup<T>(a: seq<T>, v: T, m: seq<T>, z: seq<T>)
    ensures a + [v] + m + z == a + ([v] + m) + z
  {
  }

  /** Where the first marker lands and where the last line is cut: the
      columns clamped to the right-stripped lines, as Python's slices clamp them. */
  function FirstCut(r: seq<string>, startLine: int, startCol: int): nat
    requires 1 <= startLine <= |r| && 1 <= startCol
  {
    SliceBound(startCol - 1, |r[startLine - 1]|)
  }

  function LastCut(r: seq<string>, endLine: int, endCol: int): nat
    requires 1 <= endLine <= |r| && 0 <= endCol
  {
    SliceBound(endCol, |r[endLine - 1]|)
  }

  /** Does the last line of the span carry code after `endCol`? */
  predicate Moves(r: seq<string>, endLine: int, endCol: int)
    requires 1 <= endLine <= |r| && 0 <= endCol
  {
    LastCut(r, endLine, endCol) < |r[endLine - 1]|
  }

  /** The first line of the span with the marker inserted at column `c`. */
  function MarkFirst(l: string, c: nat): string
    requires c <= |l|
  {
    l[..c] + Marker + l[c..]
  }

  /** The last line of the span, marked, with the text after `d` on a line of its own. */
  function MarkLast(l: string, d: nat): string
    requires d <= |l|
  {
    if d < |l| then Marker + l[..d] + "\n" + l[d..] else Marker + l
  }

  /** The same, as the lines the file shows once written. */
  function MarkLastLines(l: string, d: nat): seq<string>
    requires d <= |l|
  {
    if d < |l| then [Marker + l[..d], l[d..]] else [Marker + l]
  }

  /** The list `comment_out_in_c` builds for a span over several lines. */
  function Commented(r: seq<string>, startLine: int, startCol: int, endLine: int, endCol: int): seq<string>
    requires 1 <= startLine < endLine <= |r|
    requires 1 <= startCol && 0 <= endCol
  {
    var i, j := startLine - 1, endLine - 1;
    r[..i] + [MarkFirst(r[i], FirstCut(r, startLine, startCol))] + MarkAll(r[startLine..j])
    + [MarkLast(r[j], LastCut(r, endLine, endCol))] + r[endLine..]
  }

  /** The text `comment_out_in_c` writes, split at its newlines. */
  function WrittenLines(r: seq<string>, startLine: int, startCol: int, endLine: int, endCol: int): seq<string>
    requires 1 <= startLine < endLine <= |r|
    requires 1 <= startCol && 0 <= endCol
  {
    var i, j := startLine - 1, endLine - 1;
    r[..i] + [MarkFirst(r[i], FirstCut(r, startLine, startCol))] + MarkAll(r[startLine..j])
    + MarkLastLines(r[j], LastCut(r, endLine, endCol)) + r[endLine..]
  }

  /** The first line of the span gets its marker at the clamped column. */
  lemma FirstMarked(r: seq<string>, startLine: int, startCol: int)
    requires 1 <= startLine <= |r| && 1 <= startCol
    ensures PySet(r, startLine - 1, SliceTo(r[startLine - 1], startCol - 1) + Marker + SliceFrom(r[startLine - 1], startCol - 1))
         == Ok(r[startLine - 1 := MarkFirst(r[startLine - 1], FirstCut(r, startLine, startCol))])
  {
  }

  /** The interior lines of the span get their markers. */
  lemma InteriorMarked(r: seq<string>, f: string, startLine: int, endLine: int)
    requires 1 <= startLine < endLine <= |r|
    ensures MarkInterior(r[startLine - 1 := f], startLine, endLine - 1)
         == Ok(r[..startLine - 1] + [f] + MarkAll(r[startLine..endLine - 1]) + r[endLine - 1..])
  {
    var i, j := startLine - 1, endLine - 1;
    var withFirst := r[i := f];
    MarkInteriorSegments(withFirst, startLine, j);
    assert withFirst[..startLine] == r[..i] + [f];
    assert withFirst[startLine..j] == r[startLine..j];
    assert withFirst[j..] == r[j..];
  }

  /** The last line of the span gets its marker, and the text after the cut its own line. */
  lemma LastMarked(a: seq<string>, l: string, z: seq<string>, endCol: int)
    requires 0 <= endCol
    ensures PySet(a + [l] + z, |a|, if SliceFrom(l, endCol) != "" then Marker + SliceTo(l, endCol) + "\n" + SliceFrom(l, endCol) else Marker + l)
         == Ok(a + [MarkLast(l, SliceBound(endCol, |l|))] + z)
  {
    var d := SliceBound(endCol, |l|);
    assert SliceFrom(l, endCol) == l[d..];
    assert SliceTo(l, endCol) == l[..d];
    assert (a + [l] + z)[|a| := MarkLast(l, d)] == a + [MarkLast(l, d)] + z;
  }

  /** For a span over several lines, `comment_out_in_c` computes `Commented`. */
  lemma CommentStrippedValue(r: seq<string>, startLine: int, startCol: int, endLine: int, endCol: int)
    requires 1 <= startLine < endLine <= |r|
    requires 1 <= startCol && 0 <= endCol
    ensures CommentStripped(r, startLine, startCol, endLine, endCol)
         == Ok(Commented(r, startLine, startCol, endLine, endCol))
  {
    var i, j := startLine - 1, endLine - 1;
    var f := MarkFirst(r[i], FirstCut(r, startLine, startCol));
    FirstMarked(r, startLine, startCol);
    InteriorMarked(r, f, startLine, endLine);
    var a := r[..i] + [f] + MarkAll(r[startLine..j]);
    assert r[j..] == [r[j]] + r[endLine..];
    assert a + r[j..] == a + [r[j]] + r[endLine..];
    LastMarked(a, r[j], r[endLine..], endCol);
  }

  lemma CommentLinesValue(lines: seq<string>, startLine: int, startCol: int, endLine: int, endCol: int)
    requires 1 <= startLine < endLine <= |lines|
    requires 1 <= startCol && 0 <= endCol
    ensures CommentLines(lines, startLine, startCol, endLine, endCol)
         == Ok(Commented(RStripAll(lines), startLine, startCol, endLine, endCol))
  {
    CommentStrippedValue(RStripAll(lines), startLine, startCol, endLine, endCol);
  }

  /** For a span over several lines, `comment_out_in_c` leaves lines
      outside the span right-stripped only, inserts `// ` at column
      `startCol - 1` of the first line, prefixes every interior line and
      the last line with `// `, and moves the text after `endCol` of the
      last line, which is then not blank, to a line of its own. */
  lemma CommentSpan(lines: seq<string>, startLine: int, startCol: int, endLine: int, endCol: int)
    requires 1 <= startLine < endLine <= |lines|
    requires 1 <= startCol && 0 <= endCol
    ensures CommentLines(lines, startLine, startCol, endLine, endCol).Ok?
    ensures var n := CommentLines(lines, startLine, startCol, endLine, endCol).value;
            var r := RStripAll(lines);
            var c := FirstCut(r, startLine, startCol);
            var d := LastCut(r, endLine, endCol);
            && |n| == |lines|
            && (forall k :: 0 <= k < startLine - 1 || endLine <= k < |n| ==> n[k] == r[k])
            && n[startLine - 1] == r[startLine - 1][..c] + Marker + r[startLine - 1][c..]
            && (forall k :: startLine <= k < endLine - 1 ==> n[k] == Marker + r[k])
            && (d < |r[endLine - 1]| ==>
                  && n[endLine - 1] == Marker + r[endLine - 1][..d] + "\n" + r[endLine - 1][d..]
                  && !Blank(r[endLine - 1][d..]))
            && (d == |r[endLine - 1]| ==> n[endLine - 1] == Marker + r[endLine - 1])
  {
    var r := RStripAll(lines);
    CommentStrippedValue(r, startLine, startCol, endLine, endCol);
    CommentedOutside(r, startLine, startCol, endLine, endCol);
    CommentedInside(r, startLine, startCol, endLine, endCol);
    MovedNotBlank(r[endLine - 1], LastCut(r, endLine, endCol));
  }

  /** `Commented` keeps the lines outside the span and their number. */
  lemma CommentedOutside(r: seq<string>, startLine: int, startCol: int, endLine: int, endCol: int)
    requires 1 <= startLine < endLine <= |r|
    requires 1 <= startCol && 0 <= endCol
    ensures var n := Commented(r, startLine, startCol, endLine, endCol);
            && |n| == |r|
            && (forall k :: 0 <= k < startLine - 1 || endLine <= k < |n| ==> n[k] == r[k])
  {
    var i, j := startLine - 1, endLine - 1;
    var a := r[..i] + [MarkFirst(r[i], FirstCut(r, startLine, startCol))] + MarkAll(r[startLine..j]);
    var n := a + [MarkLast(r[j], LastCut(r, endLine, endCol))] + r[endLine..];
    assert |a| == j;
    forall k | endLine <= k < |n|
      ensures n[k] == r[k]
    {
      assert n[k] == r[endLine..][k - endLine];
    }
  }

  /** `Commented` marks the first, interior and last lines of the span. */
  lemma CommentedInside(r: seq<string>, startLine: int, startCol: int, endLine: int, endCol: int)
    requires 1 <= startLine < endLine <= |r|
    requires 1 <= startCol && 0 <= endCol
    ensures var n := Commented(r, startLine, startCol, endLine, endCol);
            && |n| == |r|
            && n[startLine - 1] == MarkFirst(r[startLine - 1], FirstCut(r, startLine, startCol))
            && (forall k :: startLine <= k < endLine - 1 ==> n[k] == Marker + r[k])
            && n[endLine - 1] == MarkLast(r[endLine - 1], LastCut(r, endLine, endCol))
  {
    var i, j := startLine - 1, endLine - 1;
    var m := MarkAll(r[startLine..j]);
    var a := r[..i] + [MarkFirst(r[i], FirstCut(r, startLine, startCol))];
    var n := a + m + [MarkLast(r[j], LastCut(r, endLine, endCol))] + r[endLine..];
    forall k | startLine <= k < j
      ensures n[k] == Marker + r[k]
    {
      assert n[k] == m[k - startLine];
    }
  }

  /** The text after a cut inside a right-stripped line is not blank. */
  lemma MovedNotBlank(l: string, d: nat)
    requires d <= |l|
    ensures d < |l| && !IsSpace(l[|l| - 1]) ==> !Blank(l[d..])
  {
    if d < |l| {
      assert l[|l| - 1] == l[d..][|l| - 1 - d];
    }
  }

  predicate AllNoNewline(xs: seq<string>) {
    forall k :: 0 <= k < |xs| ==> NoChar(xs[k], '\n')
  }

  lemma AllNoNewlineAppend(a: seq<string>, b: seq<string>)
    requires AllNoNewline(a) && AllNoNewline(b)
    ensures AllNoNewline(a + b)
  {
    forall k | 0 <= k < |a + b|
      ensures NoChar((a + b)[k], '\n')
    {
      if k >= |a| {
        assert (a + b)[k] == b[k - |a|];
      }
    }
  }

  /** A right-stripped line from `readlines` has no newline left. */
  lemma RStripLineNoNewline(l: string)
    requires IsLine(l)
    ensures NoChar(RStrip(l), '\n')
  {
  }

  lemma {:induction false} JoinExpand(sep: string, a: seq<string>, x: string, y: string, b: seq<string>)
    ensures Join(sep, a + [x + sep + y] + b) == Join(sep, a + [x, y] + b)
    decreases |a|
  {
    if |a| == 0 {
      assert a + [x + sep + y] + b == [x + sep + y] + b;
      assert a + [x, y] + b == [x] + ([y] + b);
      assert ([x] + ([y] + b))[1..] == [y] + b;
      if |b| > 0 {
        assert ([x + sep + y] + b)[1..] == b;
        assert ([y] + b)[1..] == b;
      }
    } else {
      JoinExpand(sep, a[1..], x, y, b);
      assert (a + [x + sep + y] + b)[1..] == a[1..] + [x + sep + y] + b;
      assert (a + [x, y] + b)[1..] == a[1..] + [x, y] + b;
    }
  }

  lemma WrittenNoNewline(r: seq<string>, startLine: int, startCol: int, endLine: int, endCol: int)
    requires 1 <= startLine < endLine <= |r|
    requires 1 <= startCol && 0 <= endCol
    requires AllNoNewline(r)
    ensures AllNoNewline(WrittenLines(r, startLine, startCol, endLine, endCol))
  {
    var i, j := startLine - 1, endLine - 1;
    var c := FirstCut(r, startLine, startCol);
    var d := LastCut(r, endLine, endCol);
    var a := r[..i] + [MarkFirst(r[i], c)];
    var m := MarkAll(r[startLine..j]);
    var tail := MarkLastLines(r[j], d);
    assert AllNoNewline(r[..i]);
    assert AllNoNewline([MarkFirst(r[i], c)]);
    assert AllNoNewline(m);
    assert AllNoNewline(tail);
    assert AllNoNewline(r[endLine..]);
    AllNoNewlineAppend(r[..i], [MarkFirst(r[i], c)]);
    AllNoNewlineAppend(a, m);
    AllNoNewlineAppend(a + m, tail);
    AllNoNewlineAppend(a + m + tail, r[endLine..]);
  }

  /** Joining `Commented` with newlines is joining `WrittenLines` with newlines. */
  lemma JoinCommented(r: seq<string>, startLine: int, startCol: int, endLine: int, endCol: int)
    requires 1 <= startLine < endLine <= |r|
    requires 1 <= startCol && 0 <= endCol
    ensures Join("\n", Commented(r, startLine, startCol, endLine, endCol))
         == Join("\n", WrittenLines(r, startLine, startCol, endLine, endCol))
  {
    var i, j := startLine - 1, endLine - 1;
    var d := LastCut(r, endLine, endCol);
    var a := r[..i] + [MarkFirst(r[i], FirstCut(r, startLine, startCol))] + MarkAll(r[startLine..j]);
    if d < |r[j]| {
      JoinExpand("\n", a, Marker + r[j][..d], r[j][d..], r[endLine..]);
    }
  }

  /** The written file, read back line by line, is `WrittenLines`: the
      text after `endCol` really sits on a line of its own. */
  lemma CommentedText(lines: seq<string>, startLine: int, startCol: int, endLine: int, endCol: int)
    requires 1 <= startLine < endLine <= |lines|
    requires 1 <= startCol && 0 <= endCol
    requires forall k :: 0 <= k < |lines| ==> IsLine(lines[k])
    ensures CommentLines(lines, startLine, startCol, endLine, endCol).Ok?
    ensures Split(Join("\n", CommentLines(lines, startLine, startCol, endLine, endCol).value), "\n")
         == WrittenLines(RStripAll(lines), startLine, startCol, endLine, endCol)
  {
    CommentLinesValue(lines, startLine, startCol, endLine, endCol);
    var r := RStripAll(lines);
    forall k | 0 <= k < |r|
      ensures NoChar(r[k], '\n')
    {
      RStripLineNoNewline(lines[k]);
    }
    WrittenNoNewline(r, startLine, startCol, endLine, endCol);
    JoinCommented(r, startLine, startCol, endLine, endCol);
    SplitJoin('\n', WrittenLines(r, startLine, startCol, endLine, endCol));
  }

  /** Removes the markers `comment_out_in_c` inserted, at the positions it
      inserted them, and rejoins the line it split. */
  function Unmark(m: seq<string>, startLine: int, c: nat, endLine: int, moved: bool): seq<string>
    requires 1 <= startLine < endLine
    requires |m| >= endLine + (if moved then 1 else 0)
    requires |m[startLine - 1]| >= c + 3
    requires forall k :: startLine <= k < endLine ==> |m[k]| >= 3
  {
    var i, j := startLine - 1, endLine - 1;
    m[..i] + [m[i][..c] + m[i][c + 3..]] + UnmarkAll(m[startLine..j])
    + (if moved then [m[j][3..] + m[endLine]] + m[endLine + 1..] else [m[j][3..]] + m[endLine..])
  }

  /** Where the five parts of `a + [f] + m + t + z` sit. */
  lemma PartsAt<T>(a: seq<T>, f: T, m: seq<T>, t: seq<T>, z: seq<T>)
    ensures var w := a + [f] + m + t + z;
            && w[..|a|] == a && w[|a|] == f
            && w[|a| + 1..|a| + 1 + |m|] == m && w[|a| + 1 + |m|..] == t + z
  {
  }

  lemma UnmarkMarkAll(xs: seq<string>)
    ensures UnmarkAll(MarkAll(xs)) == xs
  {
  }

  lemma MarkFirstInverse(l: string, c: nat)
    requires c <= |l|
    ensures MarkFirst(l, c)[..c] + MarkFirst(l, c)[c + 3..] == l
  {
    var f := MarkFirst(l, c);
    assert f[..c] == l[..c];
    assert f[c + 3..] == l[c..];
  }

  /** Rejoining the last line of the span gives it back. */
  lemma MarkLastInverse(l: string, d: nat, rest: seq<string>)
    requires d <= |l|
    ensures var t := MarkLastLines(l, d) + rest;
            && |t[0]| >= 3
            && (d < |l| ==> |t| >= 2 && [t[0][3..] + t[1]] + t[2..] == [l] + rest)
            && (d == |l| ==> [t[0][3..]] + t[1..] == [l] + rest)
  {
    var t := MarkLastLines(l, d) + rest;
    if d < |l| {
      assert t[0][3..] == l[..d];
      assert t[1] == l[d..];
      assert t[2..] == rest;
      assert l[..d] + l[d..] == l;
    } else {
      assert t[0][3..] == l;
      assert t[1..] == rest;
    }
  }

  /** `Unmark` undoes the markers of a span whose parts are given separately. */
  lemma UnmarkParts(a: seq<string>, l1: string, c: nat, mids: seq<string>, l2: string, d: nat, rest: seq<string>,
                    startLine: int, endLine: int, moved: bool)
    requires c <= |l1| && d <= |l2|
    requires startLine == |a| + 1 && endLine == |a| + 2 + |mids| && moved == (d < |l2|)
    ensures var w := a + [MarkFirst(l1, c)] + MarkAll(mids) + MarkLastLines(l2, d) + rest;
            && |w| == |a| + |mids| + 2 + |rest| + (if d < |l2| then 1 else 0)
            && |w[startLine - 1]| >= c + 3
            && (forall k :: startLine <= k < endLine ==> |w[k]| >= 3)
            && Unmark(w, startLine, c, endLine, moved) == a + [l1] + mids + [l2] + rest
  {
    var f := MarkFirst(l1, c);
    var m := MarkAll(mids);
    var tail := MarkLastLines(l2, d);
    var w := a + [f] + m + tail + rest;
    var j := endLine - 1;
    PartsAt(a, f, m, tail, rest);
    var t := w[j..];
    MarkLastInverse(l2, d, rest);
    forall k | startLine <= k < endLine
      ensures |w[k]| >= 3
    {
      if k < j {
        assert w[k] == w[startLine..j][k - startLine];
      } else {
        assert w[k] == t[0];
      }
    }
    MarkFirstInverse(l1, c);
    UnmarkMarkAll(mids);
    var back := if d < |l2| then [w[j][3..] + w[endLine]] + w[endLine + 1..] else [w[j][3..]] + w[endLine..];
    if d < |l2| {
      assert w[j] == t[0] && w[endLine] == t[1] && w[endLine + 1..] == t[2..];
    } else {
      assert w[j] == t[0] && w[endLine..] == t[1..];
    }
    assert back == [l2] + rest;
    UnmarkPieces(w, startLine, c, endLine, moved, a, l1, mids, [l2] + rest);
  }

  /** `Unmark` assembled from what it makes of each part of the list. */
  lemma UnmarkPieces(w: seq<string>, startLine: int, c: nat, endLine: int, moved: bool,
                     a: seq<string>, l1: string, mids: seq<string>, back: seq<string>)
    requires 1 <= startLine < endLine
    requires |w| >= endLine + (if moved then 1 else 0)
    requires |w[startLine - 1]| >= c + 3
    requires forall k :: startLine <= k < endLine ==> |w[k]| >= 3
    requires w[..startLine - 1] == a
    requires w[startLine - 1][..c] + w[startLine - 1][c + 3..] == l1
    requires UnmarkAll(w[startLine..endLine - 1]) == mids
    requires back == if moved then [w[endLine - 1][3..] + w[endLine]] + w[endLine + 1..]
                     else [w[endLine - 1][3..]] + w[endLine..]
    ensures Unmark(w, startLine, c, endLine, moved) == a + [l1] + mids + back
  {
  }

  /** `Unmark` undoes `WrittenLines` on any list of lines. */
  lemma UnmarkWritten(r: seq<string>, startLine: int, startCol: int, endLine: int, endCol: int)
    requires 1 <= startLine < endLine <= |r|
    requires 1 <= startCol && 0 <= endCol
    ensures var w := WrittenLines(r, startLine, startCol, endLine, endCol);
            var moved := Moves(r, endLine, endCol);
            var c := FirstCut(r, startLine, startCol);
            && |w| == |r| + (if moved then 1 else 0)
            && |w[startLine - 1]| >= c + 3
            && (forall k :: startLine <= k < endLine ==> |w[k]| >= 3)
            && Unmark(w, startLine, c, endLine, moved) == r
  {
    var i, j := startLine - 1, endLine - 1;
    var a, mids, rest := r[..i], r[startLine..j], r[endLine..];
    var c, d := FirstCut(r, startLine, startCol), LastCut(r, endLine, endCol);
    UnmarkParts(a, r[i], c, mids, r[j], d, rest, startLine, endLine, Moves(r, endLine, endCol));
    SplitAround(r, i, j);
  }

  /** Taking the markers out again, at the positions they were inserted,
      and rejoining the split line gives back the right-stripped original. */
  lemma CommentRoundTrip(lines: seq<string>, startLine: int, startCol: int, endLine: int, endCol: int)
    requires 1 <= startLine < endLine <= |lines|
    requires 1 <= startCol && 0 <= endCol
    ensures var r := RStripAll(lines);
            var w := WrittenLines(r, startLine, startCol, endLine, endCol);
            var moved := Moves(r, endLine, endCol);
            var c := FirstCut(r, startLine, startCol);
            && |w| == |lines| + (if moved then 1 else 0)
            && |w[startLine - 1]| >= c + 3
            && (forall k :: startLine <= k < endLine ==> |w[k]| >= 3)
            && Unmark(w, startLine, c, endLine, moved) == r
  {
    UnmarkWritten(RStripAll(lines), startLine, startCol, endLine, endCol);
  }

  lemma {:induction false} MarkAllLength(xs: seq<string>)
    ensures |Concat(MarkAll(xs))| == |Concat(xs)| + 3 * |xs|
    decreases |xs|
  {
    if |xs| > 0 {
      MarkAllLength(xs[1..]);
      assert MarkAll(xs)[1..] == MarkAll(xs[1..]);
    }
  }

  /** Lengths add up over a list made of five consecutive parts. */
  lemma ConcatLength5(a: seq<string>, b: seq<string>, c: seq<string>, d: seq<string>, e: seq<string>)
    ensures |Concat(a + b + c + d + e)| == |Concat(a)| + |Concat(b)| + |Concat(c)| + |Concat(d)| + |Concat(e)|
  {
    ConcatAppend(a + b + c + d, e);
    ConcatAppend(a + b + c, d);
    ConcatAppend(a + b, c);
    ConcatAppend(a, b);
  }

  lemma MarkFirstLength(l: string, c: nat)
    requires c <= |l|
    ensures |MarkFirst(l, c)| == |l| + 3
  {
  }

  lemma MarkLastLength(l: string, d: nat)
    requires d <= |l|
    ensures |MarkLast(l, d)| == |l| + 3 + (if d < |l| then 1 else 0)
  {
  }

  /** `Commented` adds three characters per line of the span, and one more
      for the line break when code is moved. */
  lemma CommentedConcatLength(r: seq<string>, startLine: int, startCol: int, endLine: int, endCol: int)
    requires 1 <= startLine < endLine <= |r|
    requires 1 <= startCol && 0 <= endCol
    ensures |Commented(r, startLine, startCol, endLine, endCol)| == |r|
    ensures |Concat(Commented(r, startLine, startCol, endLine, endCol))|
         == |Concat(r)| + 3 * (endLine - startLine + 1) + (if Moves(r, endLine, endCol) then 1 else 0)
  {
    var i, j := startLine - 1, endLine - 1;
    var c := FirstCut(r, startLine, startCol);
    var d := LastCut(r, endLine, endCol);
    var x, y := MarkFirst(r[i], c), MarkLast(r[j], d);
    ConcatLength5(r[..i], [x], MarkAll(r[startLine..j]), [y], r[endLine..]);
    SplitAround(r, i, j);
    ConcatLength5(r[..i], [r[i]], r[startLine..j], [r[j]], r[endLine..]);
    ConcatSingle(r[i]);
    ConcatSingle(r[j]);
    ConcatSingle(x);
    ConcatSingle(y);
    MarkFirstLength(r[i], c);
    MarkLastLength(r[j], d);
    MarkAllLength(r[startLine..j]);
  }

  /** The written file is as long as the right-stripped lines joined with
      newlines, plus three characters per marked line, plus one for the
      line break that separates moved code. */
  lemma CommentLength(lines: seq<string>, startLine: int, startCol: int, endLine: int, endCol: int)
    requires 1 <= startLine < endLine <= |lines|
    requires 1 <= startCol && 0 <= endCol
    ensures CommentLines(lines, startLine, startCol, endLine, endCol).Ok?
    ensures var r := RStripAll(lines);
            var n := CommentLines(lines, startLine, startCol, endLine, endCol).value;
            |Join("\n", n)| == |Join("\n", r)| + 3 * (endLine - startLine + 1) + (if Moves(r, endLine, endCol) then 1 else 0)
  {
    var r := RStripAll(lines);
    CommentStrippedValue(r, startLine, startCol, endLine, endCol);
    var n := Commented(r, startLine, startCol, endLine, endCol);
    CommentedConcatLength(r, startLine, startCol, endLine, endCol);
    JoinLength("\n", n);
    JoinLength("\n", r);
  }
}
