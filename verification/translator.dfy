/**
 `Translator`: the prompts it sends, how it cuts a model reply into its
 `<IMPORTS>`, `<FUNC>` and `<WRAPPER>` sections, and the query loop that
 keeps asking until a reply has the two mandatory sections.

 The model is an oracle: a script of outcomes, one per call of `gen`,
 each either the list of replies it returned or the `ModelException` it
 raised.
 */
module Translator {
  import opened Outcomes
  import opened PyText
  import opened Records
  import opened Workspace

  const ImportsOpen: string := "<IMPORTS>\n"
  const ImportsClose: string := "</IMPORTS>"
  const FuncOpen: string := "<FUNC>\n"
  const FuncClose: string := "</FUNC>"
  const WrapperOpen: string := "<WRAPPER>\n"
  const WrapperClose: string := "</WRAPPER>"
  const Fence: string := "```"
  const RustFence: string := "```rust"

  // ---------------------------------------------------------------------
  // Sections

  /** The first piece of `s.split(sep)`: everything before the first `sep`. */
  lemma SplitHead(s: string, sep: string)
    requires |sep| > 0
    ensures Find(s, sep).Some? ==> Split(s, sep)[0] == s[..Find(s, sep).value]
    ensures Find(s, sep).None? ==> Split(s, sep)[0] == s
  {
  }

  /** The second piece of `s.split(sep)`: what follows the first `sep`, up to the next one. */
  lemma SplitSecond(s: string, sep: string)
    requires |sep| > 0 && Contains(s, sep)
    ensures Split(s, sep)[1] == Split(s[Find(s, sep).value + |sep|..], sep)[0]
  {
  }

  /** A prefix of a string without `sub` is without `sub`. */
  lemma PrefixWithout(y: string, n: nat, sub: string)
    requires n <= |y| && !Contains(y, sub)
    ensures !Contains(y[..n], sub)
  {
    forall j | 0 <= j <= n - |sub|
      ensures !IsAt(y[..n], sub, j)
    {
      IsAtPrefix(y, n, sub, j);
    }
  }

  /**
   `r.split(open)[1].split(close)[0]`: the longest stretch right after
   the first `open` that contains neither tag. It ends at the end of the
   reply, at a closing tag, or at a repeated opening tag.
   */
  function Section(r: string, open: string, close: string): (x: string)
    requires |open| > 0 && |close| > 0 && Contains(r, open)
    ensures var t := r[Find(r, open).value + |open|..];
      && |x| <= |t| && x == t[..|x|]
      && !Contains(x, open) && !Contains(x, close)
      && (|x| == |t| || IsAt(t, open, |x|) || IsAt(t, close, |x|))
  {
    var t := r[Find(r, open).value + |open|..];
    SplitSecond(r, open);
    var y := Split(t, open)[0];
    SplitHead(t, open);
    SplitHead(y, close);
    var x := Split(y, close)[0];
    PrefixWithout(y, |x|, open);
    assert x == y[..|x|];
    IsAtPrefix(t, |y|, close, |x|);
    x
  }

  // ---------------------------------------------------------------------
  // Removing code fences

  /** The number of backticks `s` starts with. */
  function Lead(s: string): nat {
    if |s| > 0 && s[0] == '`' then 1 + Lead(s[1..]) else 0
  }

  lemma LeadFence(s: string)
    ensures IsAt(s, Fence, 0) <==> Lead(s) >= 3
  {
    if |s| >= 3 && s[..3] == Fence {
      assert s[0] == s[..3][0] && s[1] == s[..3][1] && s[2] == s[..3][2];
    }
    if |s| > 0 && s[0] == '`' {
      var s1 := s[1..];
      assert Lead(s) == 1 + Lead(s1);
      if |s1| > 0 && s1[0] == '`' {
        var s2 := s1[1..];
        assert Lead(s1) == 1 + Lead(s2);
        if |s2| > 0 && s2[0] == '`' {
          assert Lead(s2) == 1 + Lead(s2[1..]);
          assert s[..3] == Fence;
        } else {
          assert Lead(s2) == 0;
        }
      }
    }
  }

  /** Putting one character before a fence-free string keeps it fence-free unless it makes three backticks. */
  lemma PrependWithout(c: char, rest: string)
    requires !Contains(rest, Fence)
    requires c == '`' ==> Lead(rest) <= 1
    ensures !Contains([c] + rest, Fence)
  {
    var r := [c] + rest;
    forall j | 0 <= j <= |r| - |Fence|
      ensures !IsAt(r, Fence, j)
    {
      if j > 0 {
        assert r[j..j + 3] == rest[j - 1..j - 1 + 3];
        assert !IsAt(rest, Fence, j - 1);
      } else {
        NoFenceAtStart(c, rest);
      }
    }
  }

  lemma NoFenceAtStart(c: char, rest: string)
    requires c == '`' ==> Lead(rest) <= 1
    ensures !IsAt([c] + rest, Fence, 0)
  {
    var r := [c] + rest;
    LeadFence(r);
    assert r[1..] == rest;
  }

  lemma LeadDropFence(s: string)
    requires IsAt(s, Fence, 0)
    ensures Lead(s) == 3 + Lead(s[3..])
  {
    assert s[0] == s[..3][0] && s[1] == s[..3][1] && s[2] == s[..3][2];
    assert Lead(s) == 1 + Lead(s[1..]);
    assert Lead(s[1..]) == 1 + Lead(s[1..][1..]);
    assert Lead(s[1..][1..]) == 1 + Lead(s[1..][1..][1..]);
    assert s[1..][1..][1..] == s[3..];
  }

  /**
   `s.replace('```', '')` leaves no fence behind: the backticks at the
   start of the result are those of `s` modulo three.
   */
  lemma {:induction false} ReplaceFence(s: string)
    ensures Lead(Replace(s, Fence, "")) == Lead(s) % 3
    ensures !Contains(Replace(s, Fence, ""), Fence)
    decreases |s|
  {
    LeadFence(s);
    if IsAt(s, Fence, 0) {
      LeadDropFence(s);
      ReplaceFence(s[3..]);
      ReplaceAtFence(s);
    } else if s != [] {
      var rest := Replace(s[1..], Fence, "");
      ReplaceFence(s[1..]);
      ReplaceKeeps(s);
      LeadPrepend(s, rest);
      PrependWithout(s[0], rest);
    }
  }

  /** A fence at the start of `s` is dropped. */
  lemma ReplaceAtFence(s: string)
    requires IsAt(s, Fence, 0)
    ensures Replace(s, Fence, "") == Replace(s[3..], Fence, "")
  {
  }

  /** Without a fence at its start, the first character of `s` is kept. */
  lemma ReplaceKeeps(s: string)
    requires s != [] && !IsAt(s, Fence, 0)
    ensures Replace(s, Fence, "") == [s[0]] + Replace(s[1..], Fence, "")
  {
  }

  /** Keeping the first character keeps the count of leading backticks modulo three. */
  lemma LeadPrepend(s: string, rest: string)
    requires s != [] && Lead(s) < 3
    requires Lead(rest) == Lead(s[1..]) % 3
    ensures Lead([s[0]] + rest) == Lead(s) % 3
    ensures s[0] == '`' ==> Lead(rest) <= 1
  {
    var r := [s[0]] + rest;
    assert r[1..] == rest;
    if s[0] == '`' {
      assert Lead(s) == 1 + Lead(s[1..]);
      assert Lead(r) == 1 + Lead(rest);
    }
  }

  /** A slice of a string without `sub` is without `sub`. */
  lemma SliceWithout(s: string, i: nat, n: nat, sub: string)
    requires i + n <= |s| && !Contains(s, sub)
    ensures !Contains(s[i..i + n], sub)
  {
    var pre := s[..i + n];
    assert s[i..i + n] == pre[i..];
    forall m | 0 <= m <= n - |sub|
      ensures !IsAt(pre[i..], sub, m)
    {
      IsAtSuffix(pre, i, sub, m);
      IsAtPrefix(s, i + n, sub, i + m);
    }
  }

  /** Stripping whitespace cannot create an occurrence. */
  lemma StripWithout(s: string, sub: string)
    requires !Contains(s, sub)
    ensures !Contains(Strip(s), sub)
  {
    StripOfWithout(s, Strip(s), sub);
  }

  lemma StripOfWithout(s: string, r: string, sub: string)
    requires !Contains(s, sub) && StripOf(s, r)
    ensures !Contains(r, sub)
  {
    var i, j :| 0 <= i <= j <= |s| && r == s[i..j] && Blank(s[..i]) && Blank(s[j..]);
    SliceWithout(s, i, j - i, sub);
  }

  /** Replacing a pattern that starts with a character absent from `s` changes nothing. */
  lemma {:induction false} ReplaceAbsent(s: string, pat: string, rep: string)
    requires |pat| > 0
    ensures NoChar(s, pat[0]) ==> Replace(s, pat, rep) == s
    decreases |s|
  {
    if s != [] && NoChar(s, pat[0]) {
      assert !IsAt(s, pat, 0);
      ReplaceAbsent(s[1..], pat, rep);
      assert [s[0]] + s[1..] == s;
    }
  }

  /**
   `x.replace('```rust', '').replace('```', '').strip()`: no code fence
   and no surrounding whitespace is left, and text without backticks is
   only stripped.
   */
  function Clean(x: string): (y: string)
    ensures !Contains(y, Fence) && IsStripped(y)
    ensures NoChar(x, '`') ==> y == Strip(x)
  {
    var noRust := Replace(x, RustFence, "");
    var noFence := Replace(noRust, Fence, "");
    ReplaceFence(noRust);
    StripWithout(noFence, Fence);
    ReplaceAbsent(x, RustFence, "");
    ReplaceAbsent(x, Fence, "");
    Strip(noFence)
  }

  // ---------------------------------------------------------------------
  // Parsing a reply

  /**
   The parsing step of `translate` and `repair`: `None` when the reply
   lacks `<FUNC>\n` or `<WRAPPER>\n` (the loop asks again), otherwise the
   three cleaned sections, imports being empty without `<IMPORTS>\n`.
   */
  function ParseReply(r: string): (p: Option<Translation>)
    ensures p.Some? <==> Contains(r, FuncOpen) && Contains(r, WrapperOpen)
  {
    var imports := if Contains(r, ImportsOpen) then Section(r, ImportsOpen, ImportsClose) else "";
    if !Contains(r, FuncOpen) then None
    else if !Contains(r, WrapperOpen) then None
    else Some(Translation(Clean(imports), Clean(Section(r, FuncOpen, FuncClose)), Clean(Section(r, WrapperOpen, WrapperClose))))
  }

  /** A section is clean: no code fence and no surrounding whitespace. */
  predicate CleanText(s: string) {
    !Contains(s, Fence) && IsStripped(s)
  }

  /** Every section of a parsed reply is clean, and imports are empty without an `<IMPORTS>` tag. */
  lemma ParseReplyClean(r: string)
    requires ParseReply(r).Some?
    ensures var t := ParseReply(r).value;
      && CleanText(t.imports) && CleanText(t.func) && CleanText(t.wrapper)
      && (!Contains(r, ImportsOpen) ==> t.imports == "")
  {
    if !Contains(r, ImportsOpen) {
      assert NoChar("", '`');
      assert Strip("") == "";
    }
  }

  // ---------------------------------------------------------------------
  // Talking to the model

  datatype Message = Message(role: string, content: string)

  /** One call of `gen`: the list of replies it returned, or the `ModelException` it raised. */
  datatype GenOutcome = Replies(texts: seq<string>) | ModelError(msg: string)

  /** The state after a successful query: the conversation, the parsed
      translation, and the model outcomes not yet consumed. */
  datatype Exchange = Exchange(conversation: seq<Message>, translation: Translation, rest: seq<GenOutcome>)

  predicate IsReply(m: Message) {
    m.role == "assistant"
  }

  /**
   The `while True` loop of `translate` and `repair` as its handler
   intends it, for a reply parser `parse`: a `ModelException` is skipped
   without touching the conversation; otherwise the first reply is
   appended and parsed, and the loop ends at the first reply that parses.
   An empty reply list raises `IndexError`, which is not a
   `ModelException`. The module never imports `ModelException`, so the
   loop as written raises `NameError` instead (`QueryAsWritten`).
   */
  function QueryWith(parse: string -> Option<Translation>, conv: seq<Message>, outs: seq<GenOutcome>): (r: Result<Exchange>)
    ensures r.Err? ==> r.exc == IndexError || r.exc == NoWellFormedReply
    ensures r.Ok? ==> |r.value.rest| < |outs| && r.value.rest == outs[|outs| - |r.value.rest|..]
    decreases |outs|
  {
    if |outs| == 0 then Err(NoWellFormedReply)
    else
      match outs[0]
      case ModelError(_) => QueryWith(parse, conv, outs[1..])
      case Replies(texts) =>
        if |texts| == 0 then Err(IndexError)
        else
          var reply := texts[0];
          var conv' := conv + [Message("assistant", reply)];
          match parse(reply)
          case Some(t) => Ok(Exchange(conv', t, outs[1..]))
          case None => QueryWith(parse, conv', outs[1..])
  }

  /** The loop as `Translator` runs it, with the tag parser. */
  function Query(conv: seq<Message>, outs: seq<GenOutcome>): Result<Exchange>
  {
    QueryWith(ParseReply, conv, outs)
  }

  /**
   What a successful query leaves in the conversation: the earlier
   messages, then the model's replies in order, every one of them
   rejected by the parser except the last, whose sections are the result.
   */
  lemma {:induction false} QueryTranscript(parse: string -> Option<Translation>, conv: seq<Message>, outs: seq<GenOutcome>)
    requires QueryWith(parse, conv, outs).Ok?
    ensures Transcribed(parse, conv, QueryWith(parse, conv, outs).value.conversation, QueryWith(parse, conv, outs).value.translation)
    decreases |outs|
  {
    match outs[0]
    case ModelError(_) =>
      QueryTranscript(parse, conv, outs[1..]);
    case Replies(texts) =>
      var reply := texts[0];
      var conv' := conv + [Message("assistant", reply)];
      var r := QueryWith(parse, conv, outs).value;
      if parse(reply).None? {
        QueryTranscript(parse, conv', outs[1..]);
        TranscribedCons(parse, conv, reply, r.conversation, r.translation);
      } else {
        TranscribedLast(parse, conv, reply, r.translation);
      }
  }

  /**
   `c` is `conv` followed by the model's replies, every one of them
   rejected by `parse` except the last, which parses into `t`.
   */
  ghost predicate Transcribed(parse: string -> Option<Translation>, conv: seq<Message>, c: seq<Message>, t: Translation) {
    && |conv| < |c| && c[..|conv|] == conv
    && (forall k :: |conv| <= k < |c| ==> IsReply(c[k]))
    && (forall k :: |conv| <= k < |c| - 1 ==> parse(c[k].content).None?)
    && parse(c[|c| - 1].content) == Some(t)
  }

  lemma TranscribedLast(parse: string -> Option<Translation>, conv: seq<Message>, reply: string, t: Translation)
    requires parse(reply) == Some(t)
    ensures Transcribed(parse, conv, conv + [Message("assistant", reply)], t)
  {
  }

  /** A rejected reply in front of a transcript is still a transcript. */
  lemma TranscribedCons(parse: string -> Option<Translation>, conv: seq<Message>, reply: string, c: seq<Message>, t: Translation)
    requires parse(reply).None?
    requires Transcribed(parse, conv + [Message("assistant", reply)], c, t)
    ensures Transcribed(parse, conv, c, t)
  {
    var conv' := conv + [Message("assistant", reply)];
    assert c[..|conv|] == c[..|conv'|][..|conv|];
    assert c[|conv|] == conv'[|conv|];
  }

  /** A successful query only appends to the conversation it was given. */
  lemma QueryExtends(conv: seq<Message>, outs: seq<GenOutcome>)
    requires Query(conv, outs).Ok?
    ensures |conv| < |Query(conv, outs).value.conversation|
    ensures Query(conv, outs).value.conversation[..|conv|] == conv
  {
    QueryTranscript(ParseReply, conv, outs);
  }

  /** A prefix of a prefix is a prefix. */
  lemma PrefixOfPrefix<T>(x: seq<T>, y: seq<T>, z: seq<T>)
    requires |y| <= |x| && x[..|y|] == y
    requires |z| <= |y| && y[..|z|] == z
    ensures x[..|z|] == z
  {
    assert x[..|z|] == x[..|y|][..|z|];
  }

  /** A well-formed first reply ends the query at once. */
  lemma QueryFirstReply(conv: seq<Message>, outs: seq<GenOutcome>, reply: string, t: Translation)
    requires |outs| > 0 && outs[0].Replies? && |outs[0].texts| > 0 && outs[0].texts[0] == reply
    requires ParseReply(reply) == Some(t)
    ensures Query(conv, outs) == Ok(Exchange(conv + [Message("assistant", reply)], t, outs[1..]))
  {
  }

  /** A run of model exceptions is skipped and leaves the conversation unchanged. */
  lemma {:induction false} QuerySkipsErrors(conv: seq<Message>, errs: seq<GenOutcome>, outs: seq<GenOutcome>)
    requires forall k :: 0 <= k < |errs| ==> errs[k].ModelError?
    ensures QueryWith(ParseReply, conv, errs + outs) == QueryWith(ParseReply, conv, outs)
  {
    if |errs| > 0 {
      assert (errs + outs)[0] == errs[0];
      assert (errs + outs)[1..] == errs[1..] + outs;
      assert QueryWith(ParseReply, conv, errs + outs) == QueryWith(ParseReply, conv, errs[1..] + outs);
      QuerySkipsErrors(conv, errs[1..], outs);
    } else {
      assert errs + outs == outs;
    }
  }

  /** The name the `except` clauses of `translate` and `repair` look up; nothing binds it in the module. */
  const UnboundHandler: string := "ModelException"

  /** `gen` returned at least one reply. */
  predicate Answered(o: GenOutcome) {
    o.Replies? && |o.texts| > 0
  }

  /**
   The loop as written. When the body raises, either because `gen` raises
   or because its empty list makes `[0]` raise `IndexError`, Python
   evaluates `except ModelException`, and the unbound name raises
   `NameError` in place of the retry.
   */
  function QueryAsWritten(parse: string -> Option<Translation>, conv: seq<Message>, outs: seq<GenOutcome>): (r: Result<Exchange>)
    ensures r.Err? ==> r.exc == NameError(UnboundHandler) || r.exc == NoWellFormedReply
    ensures r.Ok? ==> r == QueryWith(parse, conv, outs)
    decreases |outs|
  {
    if |outs| == 0 then Err(NoWellFormedReply)
    else if !Answered(outs[0]) then Err(NameError(UnboundHandler))
    else
      var reply := outs[0].texts[0];
      var conv' := conv + [Message("assistant", reply)];
      match parse(reply)
      case Some(t) => Ok(Exchange(conv', t, outs[1..]))
      case None => QueryAsWritten(parse, conv', outs[1..])
  }

  /** While `gen` answers every call with some reply, the loop as written and the intended loop agree. */
  lemma {:induction false} QueryAsWrittenAgrees(parse: string -> Option<Translation>, conv: seq<Message>, outs: seq<GenOutcome>)
    requires forall k :: 0 <= k < |outs| ==> Answered(outs[k])
    ensures QueryAsWritten(parse, conv, outs) == QueryWith(parse, conv, outs)
    decreases |outs|
  {
    if |outs| > 0 {
      var conv' := conv + [Message("assistant", outs[0].texts[0])];
      assert forall k :: 0 <= k < |outs[1..]| ==> outs[1..][k] == outs[k + 1];
      QueryAsWrittenAgrees(parse, conv', outs[1..]);
    }
  }

  /**
   The first exception in the loop body ends the loop as written with
   `NameError`, where the intended loop skips a model exception and lets
   the `IndexError` of an empty reply list escape.
   */
  lemma QueryAsWrittenRaises(parse: string -> Option<Translation>, conv: seq<Message>, msg: string, rest: seq<GenOutcome>)
    ensures QueryAsWritten(parse, conv, [ModelError(msg)] + rest) == Err(NameError(UnboundHandler))
    ensures QueryWith(parse, conv, [ModelError(msg)] + rest) == QueryWith(parse, conv, rest)
    ensures QueryAsWritten(parse, conv, [Replies([])] + rest) == Err(NameError(UnboundHandler))
    ensures QueryWith(parse, conv, [Replies([])] + rest) == Err(IndexError)
  {
    assert ([ModelError(msg)] + rest)[1..] == rest;
  }

  /** One model exception ahead of a reply `o`: the intended loop goes on to `o`, the loop as written stops. */
  lemma QueryAfterError(parse: string -> Option<Translation>, conv: seq<Message>, msg: string, o: GenOutcome)
    ensures QueryWith(parse, conv, [ModelError(msg), o]) == QueryWith(parse, conv, [o])
    ensures QueryAsWritten(parse, conv, [ModelError(msg), o]) == Err(NameError(UnboundHandler))
  {
    assert [ModelError(msg), o][1..] == [o];
  }

  const SystemPrompt: string := "You are an intelligent code assistant"

  /** The opening of the translation prompt, up to the `c` code fence. */
  const PromptHead: string :=
    "Translate the following C function to "
    + "idiomatic Rust:\n```c\n"

  /** The fixed instructions that follow the C body, up to the first occurrence of the function's name. */
  const PromptRules: string :=
    "\n"
    + "```\n"
    + "As far as possible, use only safe Rust. Avoid "
      + "raw pointers and unsafe function calls.\n"
    + "You can assume that all the structures and global "
      + "variables already have definitions in Rust, "
      + "and you do not need to redefine them.\n"
    + "Do not use any dummy code like \"// Full implementation "
      + "goes here\", etc. All the code you write will "
      + "be substituted directly into the codebase without "
      + "a human reviewing it. So it should be functional "
      + "and complete.\n"
    + "Feel free to change the function signature and "
      + "modify the function body as needed.\n"
    + "If you need imports, you can add them in the "
      + "<IMPORTS>...</IMPORTS> section. Do not provide "
      + "them along with the function body.\n"
    + "\n"
    + "Also provide a wrapper function that calls this "
      + "function.\n"
    + "The wrapper function should have the *same* "
      + "arguments and return type as the C function, "
      + "except with C types replaced with their corresponding "
      + "libc crate types.\n"
    + "For example, replace `int` with `libc::c_int`, "
      + "`char*` with `*mut libc::c_char`, etc.\n"
    + "Also remember to use `#[no_mangle]` and `pub "
      + "extern \"C\" fn ...` for the wrapper function.\n"
    + "\n"
    + "The name of the Rust function should be `"

  /** The part of the template that names the function: the names to use and the tag layout to follow. */
  function PromptLayout(name: string): string {
    name
      + "_rust` and the wrapper function should be `"
      + name
      + "`.\n\nFollow this format:\n\n"
      + "<IMPORTS>\nAny imports you need for "
      + name
      + "_rust and "
      + name
      + "\n</IMPORTS>\n\n<FUNC>\nfn "
      + name
      + "_rust ...\n</FUNC>\n\n"
      + "<WRAPPER>\n#[no_mangle]\npub extern \"C\" fn "
      + name
      + " ...\n</WRAPPER>\n"
  }

  /** The rest of the translation prompt after the C body. */
  function PromptTail(name: string): string {
    PromptRules + PromptLayout(name)
  }

  /** The f-string of `construct_prompt_for_func`. */
  function TranslationPrompt(name: string, body: string): string {
    PromptHead + body + PromptTail(name)
  }

  /** The prompt carries the C body verbatim right after the opening request. */
  lemma PromptShowsBody(name: string, body: string)
    ensures var p := TranslationPrompt(name, body);
      && |PromptHead| + |body| <= |p|
      && p[|PromptHead|..|PromptHead| + |body|] == body
  {
  }

  /** The two messages `translate` starts a conversation with. */
  function Opening(prompt: string): seq<Message> {
    [Message("system", SystemPrompt), Message("user", Strip(prompt))]
  }

  /**
   A fresh conversation: the system message and the stripped prompt, then
   the model's replies up to the first one that parses.
   */
  function Begin(prompt: string, outs: seq<GenOutcome>): (r: Result<Exchange>)
    ensures r.Ok? ==> |r.value.conversation| > 2 && r.value.conversation[..2] == Opening(prompt)
  {
    var conv := Opening(prompt);
    var r := Query(conv, outs);
    if r.Ok? then
      QueryExtends(conv, outs);
      r
    else r
  }

  /**
   `translate`: extract the C body and begin a conversation with the
   prompt for it; a missing C file stops it before the model is asked.
   */
  function Translate(fs: FileStore, f: FuncRecord, outs: seq<GenOutcome>): (r: Result<Exchange>)
    ensures CPath(f.filename) !in fs ==> r == Err(FileNotFound(CPath(f.filename)))
    ensures ExtractBody(fs, f).Ok? && r.Ok? ==>
      && |r.value.conversation| > 2
      && r.value.conversation[..2] == Opening(TranslationPrompt(f.name, ExtractBody(fs, f).value))
  {
    var body :- ExtractBody(fs, f);
    Begin(TranslationPrompt(f.name, body), outs)
  }

  /**
   `translate` fails exactly as extraction does when extraction fails, and
   it begins a conversation only for a body it could extract.
   */
  lemma TranslateNeedsBody(fs: FileStore, f: FuncRecord, outs: seq<GenOutcome>)
    ensures ExtractBody(fs, f).Err? ==> Translate(fs, f, outs) == Err(ExtractBody(fs, f).exc)
    ensures Translate(fs, f, outs).Ok? ==> ExtractBody(fs, f).Ok?
  {
  }

  const RepairTail: string :=
    "\nPlease re-generate the translation of the "
    + "function, wrapper function, and imports. "
    + "Remember to follow the same format with "
    + "<IMPORTS></IMPORTS>, <FUNC></FUNC>, and "
    + "<WRAPPER></WRAPPER> tags."

  /** The opening line of the follow-up prompt, for the two failure categories `repair` handles. */
  function RepairLead(category: string): string
    requires category == "Compile Error" || category == "Test Failure"
  {
    if category == "Compile Error" then
      "The translation generated the "
      + "following compile error:\n"
    else
      "The translation failed tests. "
      + "This was the command output:\n"
  }

  /** The follow-up prompt `repair` sends for a failed verdict. */
  function RepairPrompt(v: Verdict): (r: Result<string>)
    ensures r.Ok? <==> v.category == "Compile Error" || v.category == "Test Failure"
    ensures r.Err? ==> r.exc == NotImplemented("Repair not implemented for this error type")
  {
    if v.category == "Compile Error" || v.category == "Test Failure" then
      Ok(RepairLead(v.category) + v.message + RepairTail)
    else Err(NotImplemented("Repair not implemented for this error type"))
  }

  /** The follow-up prompt carries the failure message verbatim right after the line for its category. */
  lemma RepairPromptShowsMessage(v: Verdict)
    requires RepairPrompt(v).Ok?
    ensures var p := RepairPrompt(v).value;
      var n := |RepairLead(v.category)|;
      && n + |v.message| <= |p|
      && p[n..n + |v.message|] == v.message
  {
  }

  /**
   `repair`: it demands an earlier conversation, accepts only the two
   failure categories `validate` produces, appends the stripped follow-up
   prompt and queries again.
   */
  function Repair(conv: seq<Message>, v: Verdict, outs: seq<GenOutcome>): (r: Result<Exchange>)
    ensures |conv| == 0 ==> r == Err(AssertionError("Repair called before translation"))
    ensures |conv| > 0 && v.category != "Compile Error" && v.category != "Test Failure" ==>
              r == Err(NotImplemented("Repair not implemented for this error type"))
    ensures r.Ok? ==>
              && RepairPrompt(v).Ok?
              && |r.value.conversation| > |conv| + 1
              && r.value.conversation[..|conv| + 1] == conv + [Message("user", Strip(RepairPrompt(v).value))]
    ensures r.Ok? ==> r.value.conversation[..|conv|] == conv
  {
    if |conv| == 0 then Err(AssertionError("Repair called before translation"))
    else
      var prompt :- RepairPrompt(v);
      FollowUp(conv, Strip(prompt), outs)
  }

  /**
   An ongoing conversation, one more user message, then the model's
   replies up to the first one that parses.
   */
  function FollowUp(conv: seq<Message>, text: string, outs: seq<GenOutcome>): (r: Result<Exchange>)
    ensures r.Ok? ==>
              && |r.value.conversation| > |conv| + 1
              && r.value.conversation[..|conv| + 1] == conv + [Message("user", text)]
              && r.value.conversation[..|conv|] == conv
  {
    var conv' := conv + [Message("user", text)];
    var r := Query(conv', outs);
    if r.Ok? then
      QueryExtends(conv', outs);
      PrefixOfPrefix(r.value.conversation, conv', conv);
      r
    else r
  }
}
