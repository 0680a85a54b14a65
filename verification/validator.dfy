/**
 `Validator.validate` and what it drives: the `run` helper, the busy-file
 part of `SourceManager.cleanup`, and `TestManager.run_tests`/`passed`.

 Shell commands are not run: each command is represented by how it ended
 (`Proc`), and the builds are represented by the message of the
 `CompileException` they raised, if any.
 */
module Validator {
  import opened Outcomes
  import opened PyText
  import opened Records
  import opened Workspace
  import opened Patching
  import opened Translator

  // ---------------------------------------------------------------------
  // run

  /** How a shell command ended: with an exit status and its two output
      streams, by the 120-second timeout, or by any other exception. */
  datatype Proc = Exited(code: int, out: string, err: string) | TimedOut | Crashed(reason: string)

  /** `run(command)`: `None` when it exits with status 0, otherwise the
      message of the `RunException` it raises. */
  function Run(p: Proc): (r: Option<string>)
    ensures r.None? <==> p.Exited? && p.code == 0
  {
    match p
    case Exited(code, out, err) =>
      if code == 0 then None
      else if Blank(err) then Some(out)
      else Some(err)
    case TimedOut => Some("Timeout")
    case Crashed(reason) => Some(reason)
  }

  /** A failed command reports its error stream, falling back to its output
      stream only when the error stream is blank; so the report is blank
      only when both streams are. */
  lemma RunReport(p: Proc)
    requires p.Exited? && p.code != 0
    ensures Run(p).Some?
    ensures !Blank(p.err) ==> Run(p).value == p.err
    ensures Blank(Run(p).value) ==> Blank(p.err) && Blank(p.out)
  {
  }

  // ---------------------------------------------------------------------
  // cleanup: files `rm -rf target` could not remove

  /** A line of `rm`'s complaint about a file in use. */
  predicate IsBusyLine(l: string) {
    Contains(l, "cannot remove") && Contains(l, "Device or resource busy")
  }

  /** The busy lines, in order. */
  function BusyLines(lines: seq<string>): (r: seq<string>)
    ensures |r| <= |lines|
    ensures forall k :: 0 <= k < |r| ==> IsBusyLine(r[k]) && r[k] in lines
    ensures forall k :: 0 <= k < |lines| && IsBusyLine(lines[k]) ==> lines[k] in r
  {
    if |lines| == 0 then []
    else if IsBusyLine(lines[0]) then [lines[0]] + BusyLines(lines[1..])
    else BusyLines(lines[1..])
  }

  /** The text between the first two quotes of `l`: `l.split('\'')[1]`. */
  function Quoted(l: string): (r: Result<string>)
    ensures r.Ok? <==> Contains(l, "'")
    ensures r.Err? ==> r.exc == IndexError
    ensures r.Ok? ==> !Contains(r.value, "'")
  {
    var parts := Split(l, "'");
    if |parts| < 2 then Err(IndexError) else Ok(parts[1])
  }

  /** The file named in each busy line, in order, or `IndexError` at the
      first busy line without a quote. */
  function Names(busy: seq<string>): (r: Result<seq<string>>)
    ensures r.Err? ==> r.exc == IndexError
    ensures r.Ok? <==> forall k :: 0 <= k < |busy| ==> Contains(busy[k], "'")
    ensures r.Ok? ==> |r.value| == |busy|
    ensures r.Ok? ==> forall k :: 0 <= k < |busy| ==> Quoted(busy[k]) == Ok(r.value[k])
  {
    if |busy| == 0 then Ok([])
    else
      var name :- Quoted(busy[0]);
      var rest :- Names(busy[1..]);
      Ok([name] + rest)
  }

  /** The loop of `cleanup` over the lines of the error: the files named in
      the busy lines. */
  function BusyFiles(lines: seq<string>): Result<seq<string>> {
    Names(BusyLines(lines))
  }

  /** The file name inside `rm`'s quotes is what `cleanup` kills and removes. */
  lemma QuotedName(pre: string, name: string, post: string)
    requires NoChar(pre, '\'') && NoChar(name, '\'')
    ensures Quoted(pre + "'" + name + "'" + post) == Ok(name)
  {
    var l := pre + "'" + name + "'" + post;
    var rest := name + "'" + post;
    var q: string := "'";
    NoCharFind(pre, "'", l);
    assert l[|pre| + 1..] == rest;
    NoCharFind(name, "'", rest);
    SplitSecond(l, q);
    SplitHead(rest, q);
    assert rest[..|name|] == name;
  }

  /** When the first occurrence of a one-character `q` in `s` follows a stretch
      `a` without it, `find` returns the length of that stretch. */
  lemma NoCharFind(a: string, q: string, s: string)
    requires |q| == 1 && NoChar(a, q[0])
    requires |a| < |s| && s[..|a|] == a && s[|a|] == q[0]
    ensures Find(s, q) == Some(|a|)
  {
    IsAtChar(s, q[0], |a|);
    assert [q[0]] == q;
    forall j | 0 <= j < |a|
      ensures !IsAt(s, q, j)
    {
      IsAtChar(s, q[0], j);
      assert s[j] == a[j];
    }
  }

  /** `SourceManager.cleanup`, as far as the model sees it: the busy files
      named when `rm -rf target` fails. The `fuser`, `rm` and final
      commands it runs afterwards have their failures swallowed. */
  function Cleanup(wipe: Proc): (r: Result<seq<string>>)
    ensures Run(wipe).None? ==> r == Ok([])
    ensures r.Err? ==> r.exc == IndexError
    ensures Run(wipe).Some? ==>
              (r.Ok? <==> forall l :: l in Split(Run(wipe).value, "\n") && IsBusyLine(l) ==> Contains(l, "'"))
    ensures Run(wipe).Some? && r.Ok? ==>
              var busy := BusyLines(Split(Run(wipe).value, "\n"));
              |r.value| == |busy| && forall k :: 0 <= k < |busy| ==> Quoted(busy[k]) == Ok(r.value[k])
  {
    match Run(wipe)
    case None => Ok([])
    case Some(msg) => BusyFiles(Split(msg, "\n"))
  }

  // ---------------------------------------------------------------------
  // TestManager

  /** One entry of `TestManager.status`; a passing test has no error. */
  datatype TestStatus = TestStatus(test: string, passed: bool, error: string)

  function Status(test: string, p: Proc): (s: TestStatus)
    ensures s.test == test && (s.passed <==> Run(p).None?)
    ensures !s.passed ==> s.error == Run(p).value
  {
    match Run(p)
    case None => TestStatus(test, true, "")
    case Some(msg) => TestStatus(test, false, msg)
  }

  /** The loop of `run_tests` over the test scripts. */
  function TestRun(tests: seq<(string, Proc)>, stopOnFailure: bool): (r: seq<TestStatus>)
    ensures |r| <= |tests|
    ensures forall k :: 0 <= k < |r| ==> r[k] == Status(tests[k].0, tests[k].1)
    ensures !stopOnFailure ==> |r| == |tests|
    ensures stopOnFailure ==> forall k :: 0 <= k < |r| - 1 ==> r[k].passed
    ensures stopOnFailure && |r| < |tests| ==> |r| > 0 && !r[|r| - 1].passed
  {
    if |tests| == 0 then []
    else
      var s := Status(tests[0].0, tests[0].1);
      if stopOnFailure && !s.passed then [s]
      else [s] + TestRun(tests[1..], stopOnFailure)
  }

  /** `run_tests(executable, stop_on_failure)`: a failing setup script
      raises its `RunException`; otherwise every test script is run. */
  function RunTests(setup: Option<Proc>, tests: seq<(string, Proc)>, stopOnFailure: bool): (r: Result<seq<TestStatus>>)
    ensures r.Err? <==> setup.Some? && Run(setup.value).Some?
    ensures r.Err? ==> r.exc == RunException(Run(setup.value).value)
    ensures r.Ok? ==> r.value == TestRun(tests, stopOnFailure)
  {
    if setup.Some? && Run(setup.value).Some? then Err(RunException(Run(setup.value).value))
    else Ok(TestRun(tests, stopOnFailure))
  }

  /** `TestManager.passed()`. */
  predicate Passed(status: seq<TestStatus>) {
    forall k :: 0 <= k < |status| ==> status[k].passed
  }

  /** The first failed entry: `[res for res in test_res if res['status'] == 'failed'][0]`. */
  function FirstFailure(status: seq<TestStatus>): (r: Option<nat>)
    ensures r.None? <==> Passed(status)
    ensures r.Some? ==> r.value < |status| && !status[r.value].passed
    ensures r.Some? ==> forall k :: 0 <= k < r.value ==> status[k].passed
  {
    if |status| == 0 then None
    else if !status[0].passed then Some(0)
    else match FirstFailure(status[1..])
      case None => None
      case Some(k) => Some(k + 1)
  }

  // ---------------------------------------------------------------------
  // validate

  /** What happened during the compile loop. */
  datatype Step = Compiled(error: Option<string>) | CleanedUp(busy: seq<string>)

  /** A compile failure that sends `validate` to `cleanup`: not a timeout,
      and a linker error. */
  predicate LinkerFailure(msg: string) {
    !Contains(msg, "Timeout") && Contains(msg, "rust-lld: error:")
  }

  /** The outcomes `validate` meets: the two builds, the `rm -rf target`
      run by a cleanup after each, whether the executable is there, and the
      setup and test scripts. */
  datatype Env = Env(build1: Option<string>, build2: Option<string>, wipe1: Proc, wipe2: Proc,
                     executableExists: bool, setup: Option<Proc>, tests: seq<(string, Proc)>)

  /** One pass of the compile loop. */
  function CompileOnce(build: Option<string>, wipe: Proc): (r: Result<seq<Step>>)
    ensures r.Err? ==> build.Some? && LinkerFailure(build.value) && r.exc == IndexError
    ensures r.Ok? ==> 1 <= |r.value| <= 2 && r.value[0] == Compiled(build)
    ensures r.Ok? ==> (|r.value| == 2 <==> build.Some? && LinkerFailure(build.value))
    ensures r.Ok? && |r.value| == 2 ==> r.value[1].CleanedUp?
  {
    match build
    case None => Ok([Compiled(None)])
    case Some(msg) =>
      if LinkerFailure(msg) then
        var busy :- Cleanup(wipe);
        Ok([Compiled(build), CleanedUp(busy)])
      else Ok([Compiled(build)])
  }

  /** The result of the compile loop: the last compile error, if no build
      succeeded, and the steps taken. */
  datatype Compilation = Compilation(failure: Option<string>, steps: seq<Step>)

  /** `for _ in range(2)`: compile, stop at the first success. */
  function CompileLoop(env: Env): (r: Result<Compilation>)
    ensures r.Err? ==> r.exc == IndexError
  {
    var s1 :- CompileOnce(env.build1, env.wipe1);
    if env.build1.None? then Ok(Compilation(None, s1))
    else
      var s2 :- CompileOnce(env.build2, env.wipe2);
      Ok(Compilation(env.build2, s1 + s2))
  }

  /** The number of builds among the steps. */
  function Builds(steps: seq<Step>): nat {
    if |steps| == 0 then 0 else (if steps[0].Compiled? then 1 else 0) + Builds(steps[1..])
  }

  lemma {:induction false} BuildsAppend(a: seq<Step>, b: seq<Step>)
    ensures Builds(a + b) == Builds(a) + Builds(b)
  {
    if |a| > 0 {
      assert (a + b)[1..] == a[1..] + b;
      BuildsAppend(a[1..], b);
    } else {
      assert a + b == b;
    }
  }

  /** Every cleanup directly follows a build that failed at link time. */
  predicate CleansAfterLinkFailure(steps: seq<Step>) {
    forall k :: 0 <= k < |steps| && steps[k].CleanedUp? ==>
      k > 0 && steps[k - 1].Compiled? && steps[k - 1].error.Some? && LinkerFailure(steps[k - 1].error.value)
  }

  /** A successful build is the last step. */
  predicate StopsAtSuccess(steps: seq<Step>) {
    forall k :: 0 <= k < |steps| - 1 ==> steps[k] != Compiled(None)
  }

  /** One pass builds once, and cleans up only after a link failure. */
  lemma CompileOnceSteps(build: Option<string>, wipe: Proc)
    requires CompileOnce(build, wipe).Ok?
    ensures var s := CompileOnce(build, wipe).value;
      && Builds(s) == 1 && CleansAfterLinkFailure(s) && StopsAtSuccess(s)
      && (build.Some? ==> forall k :: 0 <= k < |s| ==> s[k] != Compiled(None))
  {
    var s := CompileOnce(build, wipe).value;
    assert s[0] == Compiled(build) && (|s| == 2 ==> s[1].CleanedUp? && build.Some? && LinkerFailure(build.value));
    if |s| == 2 {
      assert s[1..] == [s[1]];
      assert s[1..][1..] == [];
      assert Builds(s[1..]) == 0;
      assert s[0].Compiled? && s[0].error == build;
    } else {
      assert s[1..] == [];
    }
  }

  lemma StepsAppend(a: seq<Step>, b: seq<Step>)
    requires CleansAfterLinkFailure(a) && CleansAfterLinkFailure(b) && StopsAtSuccess(b)
    requires |b| > 0 && b[0].Compiled?
    requires forall k :: 0 <= k < |a| ==> a[k] != Compiled(None)
    ensures CleansAfterLinkFailure(a + b) && StopsAtSuccess(a + b)
  {
    var s := a + b;
    forall k | 0 <= k < |s| && s[k].CleanedUp?
      ensures k > 0 && s[k - 1].Compiled? && s[k - 1].error.Some? && LinkerFailure(s[k - 1].error.value)
    {
      if k < |a| {
        assert s[k] == a[k] && s[k - 1] == a[k - 1];
      } else {
        assert s[k] == b[k - |a|];
        assert s[k - 1] == b[k - |a| - 1];
      }
    }
    forall k | 0 <= k < |s| - 1
      ensures s[k] != Compiled(None)
    {
      if k < |a| {
        assert s[k] == a[k];
      } else {
        assert s[k] == b[k - |a|];
      }
    }
  }

  /**
   The compile loop builds once when the first build succeeds and twice
   otherwise; it fails in the end only when both builds fail, with the
   second message; it cleans up exactly after the builds that failed at
   link time, and a successful build ends it.
   */
  lemma CompileLoopSteps(env: Env)
    requires CompileLoop(env).Ok?
    ensures var c := CompileLoop(env).value;
      && Builds(c.steps) == (if env.build1.None? then 1 else 2)
      && (c.failure.None? <==> env.build1.None? || env.build2.None?)
      && (c.failure.Some? ==> c.failure == env.build2)
      && |c.steps| > 0 && c.steps[0] == Compiled(env.build1)
      && CleansAfterLinkFailure(c.steps) && StopsAtSuccess(c.steps)
  {
    CompileOnceSteps(env.build1, env.wipe1);
    if env.build1.Some? {
      var s1 := CompileOnce(env.build1, env.wipe1).value;
      var s2 := CompileOnce(env.build2, env.wipe2).value;
      CompileOnceSteps(env.build2, env.wipe2);
      BuildsAppend(s1, s2);
      StepsAppend(s1, s2);
      assert CompileLoop(env).value.steps == s1 + s2;
    }
  }

  /** What `validate` finds once the translation is in place: the
      verdict, the compile steps and the statuses of the tests run. */
  datatype Judgement = Judgement(verdict: Verdict, steps: seq<Step>, tests: seq<TestStatus>)

  /** The body of `validate` after the insertion: compile, then test. */
  function Judge(env: Env): (r: Result<Judgement>)
    ensures r.Ok? ==> (r.value.verdict.success <==> r.value.verdict.category == "")
    ensures r.Ok? && !r.value.verdict.success ==>
              r.value.verdict.category == "Compile Error" || r.value.verdict.category == "Test Failure"
  {
    var c :- CompileLoop(env);
    if c.failure.Some? then Ok(Judgement(Verdict(false, "Compile Error", c.failure.value), c.steps, []))
    else if !env.executableExists then Err(ExecutableNotFound)
    else
      var status :- RunTests(env.setup, env.tests, true);
      match FirstFailure(status)
      case None => Ok(Judgement(Verdict(true, "", ""), c.steps, status))
      case Some(k) => Ok(Judgement(Verdict(false, "Test Failure", status[k].error), c.steps, status))
  }

  /**
   `validate` reports a compile error exactly when both builds fail, with
   the second build's message, and then no test runs.
   */
  lemma JudgeBuildFailure(env: Env)
    requires Judge(env).Ok?
    ensures var j := Judge(env).value;
      && CompileLoop(env).Ok? && j.steps == CompileLoop(env).value.steps
      && (j.verdict.category == "Compile Error" <==> env.build1.Some? && env.build2.Some?)
      && (j.verdict.category == "Compile Error" ==> j.verdict.message == env.build2.value && j.tests == [])
  {
    CompileLoopSteps(env);
  }

  /**
   Once a build succeeds, the tests run fail-fast, and the verdict is a
   success exactly when every test that ran passed; otherwise it carries
   the error of the first failed test.
   */
  lemma JudgeTests(env: Env)
    requires Judge(env).Ok? && Judge(env).value.verdict.category != "Compile Error"
    ensures var j := Judge(env).value;
      && env.executableExists
      && RunTests(env.setup, env.tests, true) == Ok(j.tests)
      && (j.verdict.success <==> Passed(j.tests))
      && (!j.verdict.success ==> j.verdict.message == j.tests[FirstFailure(j.tests).value].error)
  {
  }

  /** The outcome of `validate`: the workspace with the translation in it
      and what was found there. */
  datatype Validation = Validation(fs: FileStore, judgement: Judgement)

  /** `Validator.validate(func, translation, source_manager, test_manager)`:
      the translation goes in first, and only then is anything built. */
  function Validate(fs: FileStore, f: FuncRecord, t: Translation, rustfmt: string -> Option<string>, env: Env): (r: Result<Validation>)
    ensures InsertTranslation(fs, f, t, rustfmt).Err? ==> r == Err(InsertTranslation(fs, f, t, rustfmt).exc)
    ensures InsertTranslation(fs, f, t, rustfmt).Ok? && Judge(env).Err? ==> r == Err(Judge(env).exc)
    ensures r.Ok? <==> InsertTranslation(fs, f, t, rustfmt).Ok? && Judge(env).Ok?
    ensures r.Ok? ==> r.value.fs == InsertTranslation(fs, f, t, rustfmt).value && r.value.judgement == Judge(env).value
  {
    var patched :- InsertTranslation(fs, f, t, rustfmt);
    var j :- Judge(env);
    Ok(Validation(patched, j))
  }

  /** Every failure `validate` reports is one `repair` knows how to prompt for. */
  lemma FailureIsRepairable(env: Env)
    requires Judge(env).Ok? && !Judge(env).value.verdict.success
    ensures RepairPrompt(Judge(env).value.verdict).Ok?
  {
  }
}
