/**
 The SourceManager operations that patch one function in and take it out
 again: `insert_translation` (comment the C span out, patch
 `src/main.rs`, add the name to the bindgen blocklist, each file first
 backed up to its `.old` sibling), `reset_func` (copy every backup that
 exists back over its file and delete it), and `set_cargo_bin_target`.
 */
module Patching {
  import opened Outcomes
  import opened PyText
  import opened Records
  import opened Workspace
  import opened RustEntry

  /** `SourceManager.insert_translation(func, translation)`. */
  function InsertTranslation(fs: FileStore, f: FuncRecord, t: Translation, rustfmt: string -> Option<string>): (r: Result<FileStore>)
    ensures CPath(f.filename) !in fs ==> r == Err(FileNotFound(CPath(f.filename)))
    ensures r.Ok? ==> CPath(f.filename) in fs && RustMain in fs && Blocklist in fs
  {
    var commented :- CommentOut(fs, f);
    var patched :- InsertInRust(commented, t, rustfmt);
    FixedPathsApart();
    NotCFile(RustMain, f.filename);
    NotCFile(Blocklist, f.filename);
    KeyBeforeBackup(fs, commented, OldPath(CPath(f.filename)), RustMain);
    KeyBeforeBackup(fs, commented, OldPath(CPath(f.filename)), Blocklist);
    KeyBeforeBackup(commented, patched, RustBackup, Blocklist);
    AddToBlocklist(patched, f.name)
  }

  /** A workspace that only gained the backup `o` had every other key before. */
  lemma KeyBeforeBackup(fs: FileStore, a: FileStore, o: string, k: string)
    requires a.Keys == fs.Keys + {o} && k != o
    ensures k in a ==> k in fs
  {
  }

  /** The last step of `insert_translation`: back the blocklist up, then
      append the name as a line of its own. */
  function AddToBlocklist(fs: FileStore, name: string): (r: Result<FileStore>)
    ensures Blocklist !in fs <==> r == Err(FileNotFound(Blocklist))
    ensures r.Ok? ==> Blocklist in fs && Blocklist in r.value && r.value[Blocklist] == fs[Blocklist] + name + "\n"
  {
    if Blocklist !in fs then Err(FileNotFound(Blocklist))
    else
      Ok(fs[BlocklistBackup := fs[Blocklist]][Blocklist := fs[Blocklist] + name + "\n"])
  }

  /** The text `comment_out_in_c` writes back to the C file. */
  function CommentedC(fs: FileStore, f: FuncRecord): string
    requires CommentOut(fs, f).Ok?
  {
    CommentOut(fs, f).value[CPath(f.filename)]
  }

  lemma CommentOutValue(fs: FileStore, f: FuncRecord)
    requires !EndsWith(CPath(f.filename), ".old")
    requires CommentOut(fs, f).Ok?
    ensures var c := CPath(f.filename);
            CommentOut(fs, f).value == fs[c := CommentedC(fs, f)][OldPath(c) := fs[c]]
  {
  }

  lemma InsertInRustValue(fs: FileStore, t: Translation, rustfmt: string -> Option<string>)
    requires RustMain in fs
    ensures InsertInRust(fs, t, rustfmt)
         == Ok(fs[RustMain := Formatted(rustfmt, PatchedText(fs[RustMain], t))][RustBackup := fs[RustMain]])
  {
  }

  /** Three pairs of map updates, each backing a file up, commute with the
      lookups that feed them when the six paths are distinct. */
  lemma UpdatesCompose(fs: FileStore, c: string, co: string, rm: string, rmo: string, bl: string, blo: string,
                       x: string, y: string, name: string)
    requires c in fs && rm in fs && bl in fs
    requires c != co && c != rm && c != rmo && c != bl && c != blo
    requires co != rm && co != rmo && co != bl && co != blo
    requires rm != rmo && rm != bl && rm != blo && rmo != bl && rmo != blo && bl != blo
    ensures var a := fs[c := x][co := fs[c]];
            var b := a[rm := y][rmo := a[rm]];
            b[blo := b[bl]][bl := b[bl] + name + "\n"]
            == fs[c := x][co := fs[c]][rm := y][rmo := fs[rm]][blo := fs[bl]][bl := fs[bl] + name + "\n"]
  {
  }

  /** `insert_translation` as its three steps, once the C span is commented out. */
  lemma InsertSteps(fs: FileStore, f: FuncRecord, t: Translation, rustfmt: string -> Option<string>)
    requires CommentOut(fs, f).Ok?
    ensures var p := InsertInRust(CommentOut(fs, f).value, t, rustfmt);
            InsertTranslation(fs, f, t, rustfmt) == if p.Err? then Err(p.exc) else AddToBlocklist(p.value, f.name)
  {
  }

  /** Commenting the C span out leaves the Rust entry file and the blocklist alone. */
  lemma CommentKeepsFixed(fs: FileStore, f: FuncRecord)
    requires !EndsWith(CPath(f.filename), ".old")
    requires CommentOut(fs, f).Ok?
    ensures var a := CommentOut(fs, f).value;
            && (RustMain in a <==> RustMain in fs) && (Blocklist in a <==> Blocklist in fs)
            && (RustMain in fs ==> a[RustMain] == fs[RustMain])
            && (Blocklist in fs ==> a[Blocklist] == fs[Blocklist])
  {
    PathsDistinct(f.filename);
    var c := CPath(f.filename);
    var a := CommentOut(fs, f).value;
    Untouched(fs, c, a[c], OldPath(c), fs[c], RustMain);
    Untouched(fs, c, a[c], OldPath(c), fs[c], Blocklist);
  }

  /** Writing two other paths leaves `k` as it was. */
  lemma Untouched(fs: FileStore, p: string, x: string, o: string, y: string, k: string)
    requires k != p && k != o
    ensures k in fs[p := x][o := y] <==> k in fs
    ensures k in fs ==> fs[p := x][o := y][k] == fs[k]
  {
  }

  /** `insert_translation` succeeds whenever the C span can be commented
      out and the Rust entry file and the blocklist exist (the converse is
      part of `InsertTranslationEffect`). */
  lemma InsertTranslationSucceeds(fs: FileStore, f: FuncRecord, t: Translation, rustfmt: string -> Option<string>)
    requires !EndsWith(CPath(f.filename), ".old")
    requires CommentOut(fs, f).Ok? && RustMain in fs && Blocklist in fs
    ensures InsertTranslation(fs, f, t, rustfmt).Ok?
  {
    CommentKeepsFixed(fs, f);
    InsertSteps(fs, f, t, rustfmt);
    FixedPathsApart();
  }

  /** Without `src/main.rs`, `insert_translation` fails once the C file
      has been rewritten. */
  lemma InsertWithoutRustMain(fs: FileStore, f: FuncRecord, t: Translation, rustfmt: string -> Option<string>)
    requires !EndsWith(CPath(f.filename), ".old")
    requires CommentOut(fs, f).Ok? && RustMain !in fs
    ensures InsertTranslation(fs, f, t, rustfmt) == Err(FileNotFound(RustMain))
  {
    CommentKeepsFixed(fs, f);
    InsertSteps(fs, f, t, rustfmt);
  }

  /** Without the blocklist, `insert_translation` fails once the C file
      and `src/main.rs` have been rewritten. */
  lemma InsertWithoutBlocklist(fs: FileStore, f: FuncRecord, t: Translation, rustfmt: string -> Option<string>)
    requires !EndsWith(CPath(f.filename), ".old")
    requires CommentOut(fs, f).Ok? && RustMain in fs && Blocklist !in fs
    ensures InsertTranslation(fs, f, t, rustfmt) == Err(FileNotFound(Blocklist))
  {
    CommentKeepsFixed(fs, f);
    InsertSteps(fs, f, t, rustfmt);
    FixedPathsApart();
  }

  /** `insert_translation` fails unless the C span can be commented out
      and the Rust entry file and the blocklist exist. */
  lemma InsertTranslationNeeds(fs: FileStore, f: FuncRecord, t: Translation, rustfmt: string -> Option<string>)
    requires !EndsWith(CPath(f.filename), ".old")
    requires InsertTranslation(fs, f, t, rustfmt).Ok?
    ensures CommentOut(fs, f).Ok? && RustMain in fs && Blocklist in fs
  {
    if RustMain !in fs {
      InsertWithoutRustMain(fs, f, t, rustfmt);
    } else if Blocklist !in fs {
      InsertWithoutBlocklist(fs, f, t, rustfmt);
    }
  }

  /** What `insert_translation` leaves behind when it succeeds: the three
      files patched, each with a backup holding its previous text, and the
      function's name appended to the blocklist as a line of its own. */
  lemma InsertTranslationEffect(fs: FileStore, f: FuncRecord, t: Translation, rustfmt: string -> Option<string>)
    requires !EndsWith(CPath(f.filename), ".old")
    requires InsertTranslation(fs, f, t, rustfmt).Ok?
    ensures CommentOut(fs, f).Ok? && RustMain in fs && Blocklist in fs
    ensures var c := CPath(f.filename);
            InsertTranslation(fs, f, t, rustfmt)
            == Ok(fs[c := CommentedC(fs, f)][OldPath(c) := fs[c]]
                    [RustMain := Formatted(rustfmt, PatchedText(fs[RustMain], t))][RustBackup := fs[RustMain]]
                    [BlocklistBackup := fs[Blocklist]][Blocklist := fs[Blocklist] + f.name + "\n"])
  {
    InsertTranslationNeeds(fs, f, t, rustfmt);
    var c := CPath(f.filename);
    PathsDistinct(f.filename);
    CommentOutValue(fs, f);
    var a := CommentOut(fs, f).value;
    InsertInRustValue(a, t, rustfmt);
    var b := InsertInRust(a, t, rustfmt).value;
    var y := Formatted(rustfmt, PatchedText(fs[RustMain], t));
    assert InsertTranslation(fs, f, t, rustfmt) == AddToBlocklist(b, f.name);
    UpdatesCompose(fs, c, OldPath(c), RustMain, RustBackup, Blocklist, BlocklistBackup,
                   CommentedC(fs, f), y, f.name);
  }

  /** One iteration of `reset_func`: if `p`'s backup `o` exists it is copied
      over `p` and deleted; `shutil.copy` refuses when the backup is `p`
      itself. */
  function Restore(fs: FileStore, p: string, o: string): (r: Result<FileStore>)
    ensures o !in fs ==> r == Ok(fs)
    ensures o in fs && o == p ==> r == Err(SameFileError(p))
    ensures o in fs && o != p ==>
              && r.Ok? && r.value.Keys == fs.Keys + {p} - {o}
              && r.value[p] == fs[o]
              && forall q :: q in fs && q != p && q != o ==> r.value[q] == fs[q]
  {
    if o !in fs then Ok(fs)
    else if o == p then Err(SameFileError(p))
    else Ok(fs[p := fs[o]] - {o})
  }

  /** `SourceManager.reset_func(func)`: the C file, `src/main.rs`, then the
      blocklist, each from the backup `with_suffix('.old')` names. */
  function ResetFunc(fs: FileStore, f: FuncRecord): (r: Result<FileStore>)
    ensures r.Err? ==> r.exc.SameFileError?
  {
    var c := CPath(f.filename);
    RestoreThree(fs, c, OldPath(c), RustMain, OldPath(RustMain), Blocklist, OldPath(Blocklist))
  }

  /** The loop of `reset_func` over three files `a`, `b`, `c` with backups `ao`, `bo`, `co`. */
  function RestoreThree(fs: FileStore, a: string, ao: string, b: string, bo: string, c: string, co: string): (r: Result<FileStore>)
    ensures r.Err? ==> r.exc in {SameFileError(a), SameFileError(b), SameFileError(c)}
    ensures r.Ok? ==> forall q :: q in fs && q !in {a, ao, b, bo, c, co} ==> q in r.value && r.value[q] == fs[q]
  {
    var g1 :- Restore(fs, a, ao);
    var g2 :- Restore(g1, b, bo);
    Restore(g2, c, co)
  }

  /** `reset_func` touches no file but the three it restores and their backups. */
  lemma ResetKeepsOthers(fs: FileStore, f: FuncRecord)
    requires ResetFunc(fs, f).Ok?
    ensures forall q :: q in fs && q !in ResetPaths(f) ==> q in ResetFunc(fs, f).value && ResetFunc(fs, f).value[q] == fs[q]
  {
    ResetUnfolds(fs, f);
    var c := CPath(f.filename);
    FrameOfThree(fs, c, OldPath(c), RustMain, RustBackup, Blocklist, BlocklistBackup, ResetPaths(f));
  }

  /** `reset_func` is the three restores with the backups named outright. */
  lemma ResetUnfolds(fs: FileStore, f: FuncRecord)
    ensures var c := CPath(f.filename);
      ResetFunc(fs, f) == RestoreThree(fs, c, OldPath(c), RustMain, RustBackup, Blocklist, BlocklistBackup)
  {
    RustMainOld();
    BlocklistOld();
  }

  lemma FrameOfThree(fs: FileStore, a: string, ao: string, b: string, bo: string, c: string, co: string, touched: set<string>)
    requires RestoreThree(fs, a, ao, b, bo, c, co).Ok?
    requires a in touched && ao in touched && b in touched && bo in touched && c in touched && co in touched
    ensures var r := RestoreThree(fs, a, ao, b, bo, c, co).value;
      forall q :: q in fs && q !in touched ==> q in r && r[q] == fs[q]
  {
  }

  /** The three files `reset_func` restores and their backups. */
  function ResetPaths(f: FuncRecord): set<string> {
    Backups(f) + {CPath(f.filename), RustMain, Blocklist}
  }

  /** The backup paths of one function's three files. */
  function Backups(f: FuncRecord): set<string>
  {
    {OldPath(CPath(f.filename)), RustBackup, BlocklistBackup}
  }

  /** The workspace with the three backups of one function removed. */
  function WithoutBackups(fs: FileStore, f: FuncRecord): FileStore
  {
    fs - Backups(f)
  }

  /** None of the three backups exists. */
  predicate NoBackups(fs: FileStore, f: FuncRecord) {
    OldPath(CPath(f.filename)) !in fs && RustBackup !in fs && BlocklistBackup !in fs
  }

  /** With no backup there is nothing to restore. */
  lemma NothingToRestore(fs: FileStore, f: FuncRecord)
    requires NoBackups(fs, f)
    ensures ResetFunc(fs, f) == Ok(fs)
  {
    RustMainOld();
    BlocklistOld();
  }

  /** `reset_func` on a C file not named like a backup always succeeds and
      leaves no backup of the three files behind. */
  lemma ResetClears(fs: FileStore, f: FuncRecord)
    requires !EndsWith(CPath(f.filename), ".old")
    ensures ResetFunc(fs, f).Ok?
    ensures NoBackups(ResetFunc(fs, f).value, f)
  {
    PathsDistinct(f.filename);
    RustMainOld();
    BlocklistOld();
    var c := CPath(f.filename);
    RestoresClear(fs, c, OldPath(c), RustMain, RustBackup, Blocklist, BlocklistBackup);
  }

  /** Resetting twice is resetting once. */
  lemma ResetIdempotent(fs: FileStore, f: FuncRecord)
    requires !EndsWith(CPath(f.filename), ".old")
    ensures ResetFunc(fs, f).Ok?
    ensures ResetFunc(ResetFunc(fs, f).value, f) == ResetFunc(fs, f)
  {
    ResetClears(fs, f);
    NothingToRestore(ResetFunc(fs, f).value, f);
  }

  /** Three restores from distinct backups succeed and leave none of the backups behind. */
  lemma RestoresClear(fs: FileStore, c: string, co: string, rm: string, rmo: string, bl: string, blo: string)
    requires c != co && rm != rmo && bl != blo && rm != co && bl != co && bl != rmo
    ensures var r := RestoreThree(fs, c, co, rm, rmo, bl, blo);
            r.Ok? && co !in r.value && rmo !in r.value && blo !in r.value
  {
  }

  lemma RestoreValue(fs: FileStore, p: string, o: string)
    requires o in fs && o != p
    ensures Restore(fs, p, o) == Ok(fs[p := fs[o]] - {o})
  {
  }

  /** Undoing the three backed-up updates in order removes the backups
      and restores the three files. */
  lemma RestoresCompose(fs: FileStore, c: string, co: string, rm: string, rmo: string, bl: string, blo: string,
                        x: string, y: string, name: string)
    requires c in fs && rm in fs && bl in fs
    requires c != co && c != rm && c != rmo && c != bl && c != blo
    requires co != rm && co != rmo && co != bl && co != blo
    requires rm != rmo && rm != bl && rm != blo && rmo != bl && rmo != blo && bl != blo
    ensures var g := fs[c := x][co := fs[c]][rm := y][rmo := fs[rm]][blo := fs[bl]][bl := fs[bl] + name + "\n"];
            var g1 := g[c := g[co]] - {co};
            var g2 := g1[rm := g1[rmo]] - {rmo};
            && co in g && rmo in g1 && blo in g2
            && g2[bl := g2[blo]] - {blo} == fs - {co, rmo, blo}
  {
  }

  /** Patching a function in and resetting it gives back the workspace
      as it was, less any backups it held for these three files. */
  lemma InsertThenReset(fs: FileStore, f: FuncRecord, t: Translation, rustfmt: string -> Option<string>)
    requires !EndsWith(CPath(f.filename), ".old")
    requires InsertTranslation(fs, f, t, rustfmt).Ok?
    ensures ResetFunc(InsertTranslation(fs, f, t, rustfmt).value, f) == Ok(WithoutBackups(fs, f))
  {
    InsertTranslationEffect(fs, f, t, rustfmt);
    PathsDistinct(f.filename);
    RustMainOld();
    BlocklistOld();
    var c := CPath(f.filename);
    var co, rm, rmo, bl, blo := OldPath(c), RustMain, RustBackup, Blocklist, BlocklistBackup;
    var x, y := CommentedC(fs, f), Formatted(rustfmt, PatchedText(fs[RustMain], t));
    RestoresCompose(fs, c, co, rm, rmo, bl, blo, x, y, f.name);
    var g := fs[c := x][co := fs[c]][rm := y][rmo := fs[rm]][blo := fs[bl]][bl := fs[bl] + f.name + "\n"];
    RestoreValue(g, c, co);
    var g1 := g[c := g[co]] - {co};
    RestoreValue(g1, rm, rmo);
    var g2 := g1[rm := g1[rmo]] - {rmo};
    RestoreValue(g2, bl, blo);
  }

  /** A C file whose name already ends in `.old` is its own backup, and
      `reset_func` fails on it with `shutil.SameFileError`. */
  lemma ResetOwnBackup(fs: FileStore, f: FuncRecord)
    requires EndsWith(f.filename, ".old") && |f.filename| > 4 && f.filename[|f.filename| - 5] != '/'
    requires CPath(f.filename) in fs
    ensures ResetFunc(fs, f) == Err(SameFileError(CPath(f.filename)))
  {
    var c := CPath(f.filename);
    OldPathOwn(c);
  }

  // ---------------------------------------------------------------------
  // set_cargo_bin_target

  /** The first line at or after `k` starting with `p`. */
  function FirstFrom(lines: seq<string>, k: nat, p: string): (r: Option<nat>)
    requires k <= |lines|
    ensures r.Some? ==> k <= r.value < |lines| && StartsWith(lines[r.value], p)
    ensures forall j :: k <= j < |lines| && (r.None? || j < r.value) ==> !StartsWith(lines[j], p)
    decreases |lines| - k
  {
    if k == |lines| then None
    else if StartsWith(lines[k], p) then Some(k)
    else FirstFrom(lines, k + 1, p)
  }

  /** The line `set_cargo_bin_target` writes. */
  function NameLine(target: string): string {
    "name = \"" + target + "\"\n"
  }

  /** The loop of `set_cargo_bin_target` from line `k` on. */
  function RenameFrom(lines: seq<string>, k: nat, insideBin: bool, target: string): seq<string>
    requires k <= |lines|
    decreases |lines| - k
  {
    if k == |lines| then lines
    else if StartsWith(lines[k], "[[bin]]") then RenameFrom(lines, k + 1, true, target)
    else if insideBin && StartsWith(lines[k], "name =") then lines[k := NameLine(target)]
    else RenameFrom(lines, k + 1, insideBin, target)
  }

  /** The Cargo manifest's lines with the bin target renamed: the first
      `name =` line after the first `[[bin]]` line is replaced, and nothing
      changes when there is no such line. */
  function RenameBin(lines: seq<string>, target: string): (r: seq<string>)
    ensures match FirstFrom(lines, 0, "[[bin]]")
            case None => r == lines
            case Some(b) =>
              match FirstFrom(lines, b + 1, "name =")
              case None => r == lines
              case Some(n) => r == lines[n := NameLine(target)]
  {
    RenameFromSpec(lines, 0, false, target);
    RenameFrom(lines, 0, false, target)
  }

  lemma {:induction false} RenameFromSpec(lines: seq<string>, k: nat, insideBin: bool, target: string)
    requires k <= |lines|
    requires insideBin <==> FirstFrom(lines, 0, "[[bin]]").Some? && FirstFrom(lines, 0, "[[bin]]").value < k
    requires insideBin ==> FirstFrom(lines, FirstFrom(lines, 0, "[[bin]]").value + 1, "name =") == FirstFrom(lines, k, "name =")
    ensures var r := RenameFrom(lines, k, insideBin, target);
            match FirstFrom(lines, 0, "[[bin]]")
            case None => r == lines
            case Some(b) =>
              match FirstFrom(lines, b + 1, "name =")
              case None => r == lines
              case Some(n) => r == lines[n := NameLine(target)]
    decreases |lines| - k
  {
    var bin := FirstFrom(lines, 0, "[[bin]]");
    if k == |lines| {
    } else if StartsWith(lines[k], "[[bin]]") {
      assert lines[k][0] == '[';
      assert !StartsWith(lines[k], "name =");
      RenameFromSpec(lines, k + 1, true, target);
    } else if insideBin && StartsWith(lines[k], "name =") {
    } else {
      RenameFromSpec(lines, k + 1, insideBin, target);
    }
  }

  /** `SourceManager.set_cargo_bin_target(target)`. */
  function SetCargoBinTarget(fs: FileStore, target: string): (r: Result<FileStore>)
    ensures CargoToml !in fs <==> r == Err(FileNotFound(CargoToml))
    ensures r.Ok? ==> r.value == fs[CargoToml := Concat(RenameBin(ReadLines(fs[CargoToml]), target))]
  {
    if CargoToml !in fs then Err(FileNotFound(CargoToml))
    else Ok(fs[CargoToml := Concat(RenameBin(ReadLines(fs[CargoToml]), target))])
  }
}
