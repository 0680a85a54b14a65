/**
 `TranslationEngine.run(orchestrator, translator, validator)`: for the
 first function `function_iter` yields, translate it, validate the
 translation, and while attempts remain and the verdict is a failure,
 reset the function, ask for a repair and validate again. The process
 exits after that first function, so the results log is never appended to.

 As in the source, the loop is written against its collaborators, here a
 `Hooks` value; `PipelineHooks` supplies the pipeline's own, with the
 model's answers and the build, cleanup and test outcomes as oracle
 inputs: `outs` is the stream of model answers `translate` reads, and
 `env(k)` is what the `k`-th validation observes.
 */
module Engine {
  import opened Outcomes
  import opened Records
  import opened Workspace
  import opened Patching
  import opened Translator
  import opened Validator
  import opened CallGraph

  // ---------------------------------------------------------------------
  // The record of a run

  /**
   One pass of the attempt loop: the translation validated, its verdict,
   and whether `reset_func` ran after it.
   */
  datatype Round = Round(translation: Translation, verdict: Verdict, reset: bool)

  /** What `run` leaves behind for one function: the workspace, the
      rounds in order, and the conversation with the model. */
  datatype Attempts = Attempts(func: FuncRecord, fs: FileStore, rounds: seq<Round>, conversation: seq<Message>)

  /** `range(num_attempts)` allows this many validations; the first one happens regardless. */
  function MaxValidations(n: int): nat {
    if n > 1 then n else 1
  }

  /** A round that the loop went past: it failed and was reset. */
  predicate Retried(rd: Round) {
    !rd.verdict.success && rd.reset
  }

  /** The round the loop stopped at was reset exactly when it failed and
      the loop ran at all. */
  predicate Final(rd: Round, n: int) {
    rd.reset <==> !rd.verdict.success && n >= 1
  }

  /**
   The shape of the rounds of a run that finishes, counted from attempt
   `i` on: at least one and at most `MaxValidations(n - i)` validations,
   every round but the last failed and was retried, and a failure at the
   end means every remaining attempt was used.
   */
  predicate SettledFrom(rounds: seq<Round>, n: int, i: nat) {
    && 1 <= |rounds| <= MaxValidations(n - i)
    && (forall k :: 0 <= k < |rounds| - 1 ==> Retried(rounds[k]))
    && Final(rounds[|rounds| - 1], n)
    && (n >= 1 && !rounds[|rounds| - 1].verdict.success ==> |rounds| == n - i)
  }

  /** The shape of the rounds of a whole run. */
  predicate Settled(rounds: seq<Round>, n: int) {
    SettledFrom(rounds, n, 0)
  }

  /** Round `k` carries the verdict of judgement number `i + k`. */
  ghost predicate JudgedBy(rounds: seq<Round>, judge: nat -> Result<Verdict>, i: nat) {
    forall k :: 0 <= k < |rounds| ==> Judged(rounds[k], judge(i + k))
  }

  /** The round carries the verdict `j`, which a judgement produced. */
  predicate Judged(rd: Round, j: Result<Verdict>) {
    j.Ok? && rd.verdict == j.value
  }

  /** `conv` continues `start`. */
  predicate Extends(conv: seq<Message>, start: seq<Message>) {
    |start| <= |conv| && conv[..|start|] == start
  }

  // ---------------------------------------------------------------------
  // The collaborators

  /**
   The collaborators `run` calls, as it sees them: the translator's
   `translate` and `repair`, the source manager's `insert_translation`
   and `reset_func`, and the verdict of the `k`-th build-and-test.
   */
  datatype Hooks = Hooks(
    translate: FuncRecord -> Result<Exchange>,
    insert: (FileStore, FuncRecord, Translation) -> Result<FileStore>,
    judge: nat -> Result<Verdict>,
    reset: (FileStore, FuncRecord) -> Result<FileStore>,
    repair: (seq<Message>, Verdict, seq<GenOutcome>) -> Result<Exchange>)

  /** `validate` as `run` performs it: insert the translation, then judge. */
  function Validated(h: Hooks, k: nat, base: FileStore, f: FuncRecord, t: Translation): Result<(FileStore, Verdict)> {
    var w :- h.insert(base, f, t);
    var v :- h.judge(k);
    Ok((w, v))
  }

  /** The verdict of one validation environment. */
  function JudgeVerdict(e: Env): (r: Result<Verdict>)
    ensures r.Ok? <==> Judge(e).Ok?
    ensures r.Err? ==> r.exc == Judge(e).exc
    ensures r.Ok? ==> r.value == Judge(e).value.verdict
  {
    var j :- Judge(e);
    Ok(j.verdict)
  }

  /**
   The pipeline's own collaborators: `translate` reads the C source from
   the starting workspace `fs` and the model's answers from `outs`; the
   `k`-th validation builds and tests in `env(k)`.
   */
  function PipelineHooks(fs: FileStore, rustfmt: string -> Option<string>, outs: seq<GenOutcome>, env: nat -> Env): Hooks {
    Hooks(f => Translate(fs, f, outs),
          (b, f, t) => InsertTranslation(b, f, t, rustfmt),
          (k: nat) => JudgeVerdict(env(k)),
          ResetFunc,
          Repair)
  }

  /** With the pipeline's collaborators, the loop's validation step is `validate`. */
  lemma ValidatedIsValidate(fs: FileStore, rustfmt: string -> Option<string>, outs: seq<GenOutcome>, env: nat -> Env,
                            k: nat, base: FileStore, f: FuncRecord, t: Translation)
    ensures var v := Validated(PipelineHooks(fs, rustfmt, outs, env), k, base, f, t);
      var w := Validate(base, f, t, rustfmt, env(k));
      && (v.Ok? <==> w.Ok?)
      && (v.Err? ==> v.exc == w.exc)
      && (v.Ok? ==> v.value.0 == w.value.fs && v.value.1 == w.value.judgement.verdict)
  {
  }

  /** A repair only ever appends to the conversation. */
  ghost predicate RepairAppends(h: Hooks) {
    forall c, v, o :: h.repair(c, v, o).Ok? ==> Extends(h.repair(c, v, o).value.conversation, c)
  }

  /** `repair` only appends to the conversation. */
  lemma PipelineRepairAppends(fs: FileStore, rustfmt: string -> Option<string>, outs: seq<GenOutcome>, env: nat -> Env)
    ensures RepairAppends(PipelineHooks(fs, rustfmt, outs, env))
  {
    forall c, v, o | Repair(c, v, o).Ok?
      ensures Extends(Repair(c, v, o).value.conversation, c)
    {
    }
  }

  /** Resetting `f` after inserting a translation for it gives back `clean`
      of the workspace inserted into. */
  ghost predicate ResetUndoesInsert(h: Hooks, f: FuncRecord, clean: FileStore -> FileStore) {
    forall b, t :: h.insert(b, f, t).Ok? ==> h.reset(h.insert(b, f, t).value, f) == Ok(clean(b))
  }

  ghost predicate Idempotent(clean: FileStore -> FileStore) {
    forall b :: clean(clean(b)) == clean(b)
  }

  /** Removing the backups twice is removing them once. */
  lemma WithoutBackupsTwice(fs: FileStore, f: FuncRecord)
    ensures WithoutBackups(WithoutBackups(fs, f), f) == WithoutBackups(fs, f)
  {
    MinusTwice(fs, Backups(f));
  }

  /** Taking the same keys out of a map twice is taking them out once. */
  lemma MinusTwice(m: FileStore, s: set<string>)
    ensures m - s - s == m - s
  {
  }

  /**
   For a C file not named `*.old`, `reset_func` undoes `insert_translation`
   up to the function's backups, and removing those twice is removing
   them once.
   */
  lemma PipelineResetUndoesInsert(fs: FileStore, rustfmt: string -> Option<string>, outs: seq<GenOutcome>,
                                  env: nat -> Env, f: FuncRecord)
    requires !EndsWith(CPath(f.filename), ".old")
    ensures ResetUndoesInsert(PipelineHooks(fs, rustfmt, outs, env), f, b => WithoutBackups(b, f))
    ensures Idempotent(b => WithoutBackups(b, f))
  {
    var h := PipelineHooks(fs, rustfmt, outs, env);
    forall b, t | h.insert(b, f, t).Ok?
      ensures h.reset(h.insert(b, f, t).value, f) == Ok(WithoutBackups(b, f))
    {
      InsertThenReset(b, f, t, rustfmt);
    }
    forall b
      ensures WithoutBackups(WithoutBackups(b, f), f) == WithoutBackups(b, f)
    {
      WithoutBackupsTwice(b, f);
    }
  }

  // ---------------------------------------------------------------------
  // The attempt loop

  /** The loop's variables at the top of an iteration: the conversation,
      the unread model answers, the translation last validated, the
      workspace it was inserted into and the one that resulted, and its verdict. */
  datatype State = State(conv: seq<Message>, rest: seq<GenOutcome>, t: Translation,
                         base: FileStore, work: FileStore, verdict: Verdict)

  /** Repair the failed state and validate the result in the reset workspace. */
  function Repaired(h: Hooks, f: FuncRecord, k: nat, s: State, reset: FileStore): (r: Result<State>)
    ensures r.Ok? ==>
              && h.repair(s.conv, s.verdict, s.rest).Ok?
              && r.value.t == h.repair(s.conv, s.verdict, s.rest).value.translation
              && r.value.conv == h.repair(s.conv, s.verdict, s.rest).value.conversation
              && r.value.base == reset
              && h.insert(reset, f, r.value.t) == Ok(r.value.work)
              && h.judge(k).Ok? && r.value.verdict == h.judge(k).value
  {
    var ex :- h.repair(s.conv, s.verdict, s.rest);
    var val :- Validated(h, k, reset, f, ex.translation);
    Ok(State(ex.conversation, ex.rest, ex.translation, reset, val.0, val.1))
  }

  /**
   `for i in range(num_attempts)` from iteration `i`: stop at a success;
   otherwise reset the function, stop if this was the last attempt, and
   else repair with the verdict just obtained and validate again.
   */
  function Loop(h: Hooks, f: FuncRecord, n: int, i: nat, s: State): (r: Result<Attempts>)
    ensures r.Ok? ==> r.value.func == f && 0 < |r.value.rounds| <= (if i < n then n - i else 1)
    ensures r.Ok? ==> r.value.rounds[0].translation == s.t && r.value.rounds[0].verdict == s.verdict
    ensures r.Ok? ==> (r.value.rounds[0].reset <==> i < n && !s.verdict.success)
    decreases if i < n then n - i else 0
  {
    if i >= n || s.verdict.success then Ok(Attempts(f, s.work, [Round(s.t, s.verdict, false)], s.conv))
    else
      var reset :- h.reset(s.work, f);
      if i == n - 1 then Ok(Attempts(f, reset, [Round(s.t, s.verdict, true)], s.conv))
      else
        var next :- Repaired(h, f, i + 1, s, reset);
        var tail :- Loop(h, f, n, i + 1, next);
        Ok(tail.(rounds := [Round(s.t, s.verdict, true)] + tail.rounds))
  }

  lemma SettledCons(rd: Round, tail: seq<Round>, n: int, i: nat)
    requires Retried(rd) && i + 1 < n && SettledFrom(tail, n, i + 1)
    ensures SettledFrom([rd] + tail, n, i)
  {
    var s := [rd] + tail;
    forall k | 0 <= k < |s| - 1
      ensures Retried(s[k])
    {
      if k > 0 {
        assert s[k] == tail[k - 1];
      }
    }
    assert s[|s| - 1] == tail[|tail| - 1];
  }

  /**
   The loop from iteration `i` ends, when it ends without an exception,
   in rounds of the settled shape, the first of which is the state it
   started from.
   */
  lemma {:induction false} LoopSettled(h: Hooks, f: FuncRecord, n: int, i: nat, s: State)
    requires i == 0 || i < n
    requires Loop(h, f, n, i, s).Ok?
    ensures var a := Loop(h, f, n, i, s).value;
      && a.func == f && SettledFrom(a.rounds, n, i)
      && a.rounds[0].translation == s.t && a.rounds[0].verdict == s.verdict
    decreases if i < n then n - i else 0
  {
    if i >= n || s.verdict.success || i == n - 1 {
    } else {
      var reset := h.reset(s.work, f).value;
      var next := Repaired(h, f, i + 1, s, reset).value;
      LoopSettled(h, f, n, i + 1, next);
      SettledCons(Round(s.t, s.verdict, true), Loop(h, f, n, i + 1, next).value.rounds, n, i);
    }
  }

  /** A loop iteration that repairs: the rest of the loop runs from the repaired state. */
  lemma LoopStep(h: Hooks, f: FuncRecord, n: int, i: nat, s: State)
    requires Loop(h, f, n, i, s).Ok? && i < n - 1 && !s.verdict.success
    ensures h.reset(s.work, f).Ok?
    ensures Repaired(h, f, i + 1, s, h.reset(s.work, f).value).Ok?
    ensures var next := Repaired(h, f, i + 1, s, h.reset(s.work, f).value).value;
      && Loop(h, f, n, i + 1, next).Ok?
      && Loop(h, f, n, i, s).value.rounds == [Round(s.t, s.verdict, true)] + Loop(h, f, n, i + 1, next).value.rounds
      && Loop(h, f, n, i, s).value.fs == Loop(h, f, n, i + 1, next).value.fs
      && Loop(h, f, n, i, s).value.conversation == Loop(h, f, n, i + 1, next).value.conversation
  {
  }

  lemma JudgedCons(rd: Round, tail: seq<Round>, judge: nat -> Result<Verdict>, i: nat)
    requires judge(i).Ok? && rd.verdict == judge(i).value
    requires JudgedBy(tail, judge, i + 1)
    ensures JudgedBy([rd] + tail, judge, i)
  {
    var rounds := [rd] + tail;
    forall k | 0 <= k < |rounds|
      ensures Judged(rounds[k], judge(i + k))
    {
      if k > 0 {
        assert rounds[k] == tail[k - 1] && i + k == (i + 1) + (k - 1);
        assert Judged(tail[k - 1], judge((i + 1) + (k - 1)));
      }
    }
  }

  /** Every round of the loop carries the verdict of its own validation. */
  lemma {:induction false} LoopJudged(h: Hooks, f: FuncRecord, n: int, i: nat, s: State)
    requires Loop(h, f, n, i, s).Ok?
    requires h.judge(i).Ok? && s.verdict == h.judge(i).value
    ensures JudgedBy(Loop(h, f, n, i, s).value.rounds, h.judge, i)
    decreases if i < n then n - i else 0
  {
    var rd := Round(s.t, s.verdict, !(i >= n || s.verdict.success));
    if i >= n || s.verdict.success || i == n - 1 {
      assert Loop(h, f, n, i, s).value.rounds == [rd] + [];
      JudgedCons(rd, [], h.judge, i);
    } else {
      LoopStep(h, f, n, i, s);
      var next := Repaired(h, f, i + 1, s, h.reset(s.work, f).value).value;
      LoopJudged(h, f, n, i + 1, next);
      JudgedCons(rd, Loop(h, f, n, i + 1, next).value.rounds, h.judge, i);
    }
  }

  /** The loop only ever appends to the conversation. */
  lemma {:induction false} LoopExtends(h: Hooks, f: FuncRecord, n: int, i: nat, s: State)
    requires RepairAppends(h)
    requires Loop(h, f, n, i, s).Ok?
    ensures Extends(Loop(h, f, n, i, s).value.conversation, s.conv)
    decreases if i < n then n - i else 0
  {
    if i >= n || s.verdict.success || i == n - 1 {
    } else {
      var reset := h.reset(s.work, f).value;
      var next := Repaired(h, f, i + 1, s, reset).value;
      var c := Loop(h, f, n, i + 1, next).value.conversation;
      LoopExtends(h, f, n, i + 1, next);
      assert c[..|s.conv|] == c[..|next.conv|][..|s.conv|];
    }
  }

  /** The workspace a validation in round `k` inserts into, starting from
      `fs`, when every reset restores `clean(fs)`. */
  function Base(fs: FileStore, clean: FileStore -> FileStore, k: nat): FileStore {
    if k == 0 then fs else clean(fs)
  }

  /** Every reset in the loop lands on `clean` of the starting workspace. */
  lemma ResetStep(h: Hooks, f: FuncRecord, orig: FileStore, clean: FileStore -> FileStore, i: nat, s: State)
    requires ResetUndoesInsert(h, f, clean) && Idempotent(clean)
    requires h.insert(s.base, f, s.t) == Ok(s.work) && s.base == Base(orig, clean, i)
    ensures h.reset(s.work, f) == Ok(clean(orig))
  {
    assert clean(clean(orig)) == clean(orig);
  }

  /**
   Where a run that began at round `i` leaves the workspace: after a final
   reset, at `clean` of the starting workspace; otherwise with the last
   translation inserted into the workspace its round started from.
   */
  ghost predicate EndsIn(h: Hooks, f: FuncRecord, orig: FileStore, clean: FileStore -> FileStore, i: nat, a: Attempts) {
    && |a.rounds| > 0
    && var last := a.rounds[|a.rounds| - 1];
       var patched := h.insert(Base(orig, clean, i + |a.rounds| - 1), f, last.translation);
       && patched.Ok?
       && (last.reset ==> a.fs == clean(orig))
       && (!last.reset ==> a.fs == patched.value)
  }

  /** A round put in front of a run that began at round `i + 1` keeps where it ends. */
  lemma EndsInCons(h: Hooks, f: FuncRecord, orig: FileStore, clean: FileStore -> FileStore, i: nat,
                   rd: Round, b: Attempts, a: Attempts)
    requires EndsIn(h, f, orig, clean, i + 1, b)
    requires a.fs == b.fs && a.rounds == [rd] + b.rounds
    ensures EndsIn(h, f, orig, clean, i, a)
  {
    assert a.rounds[|a.rounds| - 1] == b.rounds[|b.rounds| - 1];
    assert i + |a.rounds| - 1 == (i + 1) + |b.rounds| - 1;
  }

  /** When a reset undoes an insertion, every run ends in the workspace `EndsIn` describes. */
  lemma {:induction false} LoopWorkspace(h: Hooks, f: FuncRecord, orig: FileStore, clean: FileStore -> FileStore,
                                         n: int, i: nat, s: State)
    requires ResetUndoesInsert(h, f, clean) && Idempotent(clean)
    requires h.insert(s.base, f, s.t) == Ok(s.work) && s.base == Base(orig, clean, i)
    requires Loop(h, f, n, i, s).Ok?
    ensures EndsIn(h, f, orig, clean, i, Loop(h, f, n, i, s).value)
    decreases if i < n then n - i else 0
  {
    var a := Loop(h, f, n, i, s).value;
    if i >= n || s.verdict.success {
      assert a.rounds == [Round(s.t, s.verdict, false)] && a.fs == s.work;
    } else {
      ResetStep(h, f, orig, clean, i, s);
      var reset := h.reset(s.work, f).value;
      if i == n - 1 {
        assert a.rounds == [Round(s.t, s.verdict, true)] && a.fs == reset;
      } else {
        LoopStep(h, f, n, i, s);
        var next := Repaired(h, f, i + 1, s, reset).value;
        LoopWorkspace(h, f, orig, clean, n, i + 1, next);
        EndsInCons(h, f, orig, clean, i, Round(s.t, s.verdict, true), Loop(h, f, n, i + 1, next).value, a);
      }
    }
  }

  // ---------------------------------------------------------------------
  // One function, and `run`

  /** The first state of the loop: the translation `translate` returned, validated once. */
  function FirstState(h: Hooks, fs: FileStore, f: FuncRecord, start: Exchange): (r: Result<State>)
    ensures r.Ok? ==>
              && r.value.conv == start.conversation && r.value.rest == start.rest
              && r.value.t == start.translation && r.value.base == fs
              && h.insert(fs, f, start.translation) == Ok(r.value.work)
              && h.judge(0).Ok? && r.value.verdict == h.judge(0).value
  {
    var first :- Validated(h, 0, fs, f, start.translation);
    Ok(State(start.conversation, start.rest, start.translation, fs, first.0, first.1))
  }

  /** The attempt loop for one function, from the exchange `translate` returned. */
  function Attempt(h: Hooks, fs: FileStore, f: FuncRecord, n: int, start: Exchange): Result<Attempts>
  {
    var s0 :- FirstState(h, fs, f, start);
    Loop(h, f, n, 0, s0)
  }

  /**
   The attempt loop for one function: a settled sequence of rounds, the
   first validating what `translate` returned, round `k` carrying the
   `k`-th verdict, and a conversation that continues the one `translate`
   left.
   */
  lemma AttemptSettled(h: Hooks, fs: FileStore, f: FuncRecord, n: int, start: Exchange)
    requires RepairAppends(h)
    requires Attempt(h, fs, f, n, start).Ok?
    ensures var a := Attempt(h, fs, f, n, start).value;
      && a.func == f && Settled(a.rounds, n)
      && a.rounds[0].translation == start.translation
      && JudgedBy(a.rounds, h.judge, 0)
      && Extends(a.conversation, start.conversation)
  {
    var s0 := FirstState(h, fs, f, start).value;
    LoopSettled(h, f, n, 0, s0);
    LoopJudged(h, f, n, 0, s0);
    LoopExtends(h, f, n, 0, s0);
  }

  /**
   `repair` is handed the most recent failure: when there is a second
   round, the first failed, and the second validates what `repair`
   answered to the first round's verdict, in a conversation that
   continues the one that answer left.
   */
  lemma AttemptRepairs(h: Hooks, fs: FileStore, f: FuncRecord, n: int, start: Exchange)
    requires RepairAppends(h)
    requires Attempt(h, fs, f, n, start).Ok? && |Attempt(h, fs, f, n, start).value.rounds| > 1
    ensures var a := Attempt(h, fs, f, n, start).value;
      var v := a.rounds[0].verdict;
      && !v.success && a.rounds[0].reset
      && h.repair(start.conversation, v, start.rest).Ok?
      && a.rounds[1].translation == h.repair(start.conversation, v, start.rest).value.translation
      && Extends(a.conversation, h.repair(start.conversation, v, start.rest).value.conversation)
  {
    var s0 := FirstState(h, fs, f, start).value;
    LoopSettled(h, f, n, 0, s0);
    var reset := h.reset(s0.work, f).value;
    var next := Repaired(h, f, 1, s0, reset).value;
    LoopSettled(h, f, n, 1, next);
    LoopExtends(h, f, n, 1, next);
  }

  /**
   When a reset undoes an insertion, the loop leaves the workspace at
   `clean` of the one it found when its last act was a reset; otherwise
   the last translation is in place, inserted into the workspace as it
   was before the first round or after the last reset.
   */
  lemma AttemptWorkspace(h: Hooks, fs: FileStore, f: FuncRecord, n: int, start: Exchange, clean: FileStore -> FileStore)
    requires ResetUndoesInsert(h, f, clean) && Idempotent(clean)
    requires Attempt(h, fs, f, n, start).Ok?
    ensures var a := Attempt(h, fs, f, n, start).value;
      && |a.rounds| > 0
      && var last := a.rounds[|a.rounds| - 1];
         var patched := h.insert(if |a.rounds| == 1 then fs else clean(fs), f, last.translation);
         && patched.Ok?
         && (last.reset ==> a.fs == clean(fs))
         && (!last.reset ==> a.fs == patched.value)
  {
    var s0 := FirstState(h, fs, f, start).value;
    LoopWorkspace(h, f, fs, clean, n, 0, s0);
  }

  /** With no attempts allowed, the first translation stays in place, failed or not. */
  lemma AttemptWithoutRetries(h: Hooks, fs: FileStore, f: FuncRecord, n: int, start: Exchange)
    requires n <= 0 && Attempt(h, fs, f, n, start).Ok?
    ensures var a := Attempt(h, fs, f, n, start).value;
      && |a.rounds| == 1 && !a.rounds[0].reset
      && h.insert(fs, f, start.translation).Ok?
      && a.fs == h.insert(fs, f, start.translation).value
  {
  }

  /**
   `run`: translate the first function `function_iter` yields, run the
   attempt loop on it and stop there. With nothing to translate, nothing
   happens.
   */
  function Run(h: Hooks, recs: seq<FuncRecord>, order: seq<string>, fs: FileStore, n: int): (r: Result<Option<Attempts>>)
    ensures FunctionIter(recs, order).Err? ==> r == Err(FunctionIter(recs, order).exc)
    ensures r == Ok(None) <==> FunctionIter(recs, order) == Ok([])
    ensures r.Ok? && r.value.Some? ==>
              && FunctionIter(recs, order).Ok? && |FunctionIter(recs, order).value| > 0
              && r.value.value.func == FunctionIter(recs, order).value[0]
  {
    var funcs :- FunctionIter(recs, order);
    if |funcs| == 0 then Ok(None)
    else
      var start :- h.translate(funcs[0]);
      var a :- Attempt(h, fs, funcs[0], n, start);
      Ok(Some(a))
  }

  /**
   `run` attempts only the first function `function_iter` yields, starting
   from what `translate` answered for it; a failure of `function_iter` or
   of `translate` propagates, and with no function nothing happens.
   */
  lemma RunFirstOnly(h: Hooks, recs: seq<FuncRecord>, order: seq<string>, fs: FileStore, n: int)
    requires RepairAppends(h)
    ensures FunctionIter(recs, order).Err? ==> Run(h, recs, order, fs, n) == Err(FunctionIter(recs, order).exc)
    ensures FunctionIter(recs, order) == Ok([]) ==> Run(h, recs, order, fs, n) == Ok(None)
    ensures FunctionIter(recs, order).Ok? && |FunctionIter(recs, order).value| > 0 ==>
              var f := FunctionIter(recs, order).value[0];
              && (h.translate(f).Err? ==> Run(h, recs, order, fs, n) == Err(h.translate(f).exc))
              && (Run(h, recs, order, fs, n).Ok? ==>
                    && h.translate(f).Ok? && Run(h, recs, order, fs, n).value.Some?
                    && var a := Run(h, recs, order, fs, n).value.value;
                       && a.func == f && Settled(a.rounds, n)
                       && a.rounds[0].translation == h.translate(f).value.translation)
  {
    if FunctionIter(recs, order).Ok? && |FunctionIter(recs, order).value| > 0 {
      var f := FunctionIter(recs, order).value[0];
      if Run(h, recs, order, fs, n).Ok? {
        AttemptSettled(h, fs, f, n, h.translate(f).value);
      }
    }
  }

  /**
   `run` with the pipeline's own collaborators over one workspace `fs`:
   the C body `translate` sends to the model is read from the workspace
   the attempt loop then patches, so a missing C file stops `run` before
   anything is written.
   */
  lemma PipelineRunFirstOnly(recs: seq<FuncRecord>, order: seq<string>, fs: FileStore, rustfmt: string -> Option<string>,
                             outs: seq<GenOutcome>, env: nat -> Env, n: int)
    ensures var r := Run(PipelineHooks(fs, rustfmt, outs, env), recs, order, fs, n);
      FunctionIter(recs, order).Ok? && |FunctionIter(recs, order).value| > 0 ==>
        var f := FunctionIter(recs, order).value[0];
        && (CPath(f.filename) !in fs ==> r == Err(FileNotFound(CPath(f.filename))))
        && (Translate(fs, f, outs).Err? ==> r == Err(Translate(fs, f, outs).exc))
        && (r.Ok? ==>
              && Translate(fs, f, outs).Ok? && r.value.Some?
              && r.value.value.func == f && Settled(r.value.value.rounds, n)
              && r.value.value.rounds[0].translation == Translate(fs, f, outs).value.translation)
  {
    var h := PipelineHooks(fs, rustfmt, outs, env);
    PipelineRepairAppends(fs, rustfmt, outs, env);
    RunFirstOnly(h, recs, order, fs, n);
  }
}
