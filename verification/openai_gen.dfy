/**
 `OpenAIGen.gen`, the stand-in for the language model: it refuses top-k
 sampling at temperature zero and otherwise answers `top_k` copies of the
 same well-tagged reply, whatever the conversation says.
 */
module OpenAIGen {
  import opened Outcomes
  import opened PyText
  import opened Records
  import opened Translator
  import opened ReplyFormat

  /** The line the stub puts in both of its sections. */
  const Placeholder: string := "// Hello World"

  /** The stub's reply before `strip()`: a leading newline, then one section per tag pair. */
  function RawReply(): string {
    "\n" + Tagged(Placeholder + "\n", Placeholder + "\n")
  }

  /** `top_k` copies of `x`; none when `top_k` is not positive, as `range` gives. */
  function Copies(x: string, topK: int): (r: seq<string>)
    ensures |r| == if topK > 0 then topK else 0
    ensures forall k :: 0 <= k < |r| ==> r[k] == x
    decreases topK
  {
    if topK <= 0 then [] else [x] + Copies(x, topK - 1)
  }

  /**
   `gen(messages, temperature, seed, top_k)`. The messages and the seed
   flag do not influence the stub.
   */
  function Gen(messages: seq<Message>, temperature: real, seed: bool, topK: int): (r: GenOutcome)
    ensures r.ModelError? <==> topK != 1 && temperature == 0.0
    ensures r.ModelError? ==> r.msg == "Top k sampling requires a non-zero temperature"
    ensures r.Replies? ==> |r.texts| == (if topK > 0 then topK else 0)
    ensures r.Replies? ==> forall k :: 0 <= k < |r.texts| ==> r.texts[k] == Strip(RawReply())
  {
    if topK != 1 && temperature == 0.0 then ModelError("Top k sampling requires a non-zero temperature")
    else Replies(Copies(Strip(RawReply()), topK))
  }

  /** The placeholder has no tag character, no backtick and nothing to strip. */
  lemma PlaceholderPlain()
    ensures NoChar(Placeholder + "\n", '<') && NoChar(Placeholder + "\n", '`')
    ensures IsStripped(Placeholder)
  {
    assert Placeholder == "/" + "/ Hello World";
    assert Placeholder + "\n" == "// Hello World\n";
  }

  /** A stripped, non-empty text followed by one newline strips back to itself. */
  lemma StripTrailingNewline(p: string)
    requires |p| > 0 && IsStripped(p)
    ensures Strip(p + "\n") == p
  {
    var s := p + "\n";
    assert s[0] == p[0];
    assert LStrip(s) == s;
    assert s[..|s| - 1] == p;
    assert RStrip(s) == RStrip(p);
  }

  /** A stripped text after one newline strips back to itself. */
  lemma StripLeadingNewline(t: string)
    requires |t| > 0 && IsStripped(t)
    ensures Strip("\n" + t) == t
  {
    var s := "\n" + t;
    assert s[1..] == t;
    assert LStrip(s) == LStrip(t) == t;
    assert RStrip(t) == t;
  }

  /**
   What the stub answers: its raw reply loses only the leading newline to
   `strip()`, and the parser reads it, at the first attempt, as a function
   and a wrapper that are both the placeholder line, with empty imports.
   */
  lemma StubReplyParses()
    ensures Strip(RawReply()) == Tagged(Placeholder + "\n", Placeholder + "\n")
    ensures ParseReply(Strip(RawReply())) == Some(Translation("", Placeholder, Placeholder))
  {
    var f := Placeholder + "\n";
    var t := Tagged(f, f);
    TaggedPieces(f, f);
    TagShapes();
    assert t[0] == t[..|FuncOpen|][0] == FuncOpen[0];
    assert t[|t| - 1] == t[WrapperCloseAt(f, f)..][|WrapperClose| - 1] == WrapperClose[|WrapperClose| - 1];
    assert WrapperClose[|WrapperClose| - 1] == '>';
    StripLeadingNewline(t);
    PlaceholderPlain();
    ParseTagged(f, f);
    StripTrailingNewline(Placeholder);
  }

  /**
   With the arguments `translate` and `repair` pass (`top_k=1`,
   `temperature=0`), the stub answers one reply and the query loop
   accepts it at once, appending it to the conversation.
   */
  lemma StubQueryAccepts(conv: seq<Message>, rest: seq<GenOutcome>)
    ensures var g := Gen(conv, 0.0, true, 1);
      && g.Replies? && |g.texts| == 1
      && Query(conv, [g] + rest)
         == Ok(Exchange(conv + [Message("assistant", Strip(RawReply()))],
                        Translation("", Placeholder, Placeholder), rest))
  {
    var g := Gen(conv, 0.0, true, 1);
    StubReplyParses();
    assert ([g] + rest)[1..] == rest;
    QueryFirstReply(conv, [g] + rest, Strip(RawReply()), Translation("", Placeholder, Placeholder));
  }

  /**
   A model exception, here the stub's own refusal of `top_k=2` at
   temperature zero, followed by an accepted reply: the intended loop
   retries and succeeds, while the loop as written raises `NameError`.
   */
  lemma StubRetryDiffers(conv: seq<Message>, bad: GenOutcome, good: GenOutcome)
    requires bad == Gen(conv, 0.0, true, 2) && good == Gen(conv, 0.0, true, 1)
    ensures bad.ModelError?
    ensures Query(conv, [bad, good]).Ok?
    ensures QueryAsWritten(ParseReply, conv, [bad, good]) == Err(NameError(UnboundHandler))
  {
    StubQueryAccepts(conv, []);
    assert [good] + [] == [good];
    QueryAfterError(ParseReply, conv, bad.msg, good);
  }
}
