/**
 The chat-log splitter of `cursor_cost.py`: a small state machine over the
 lines of an exported chat. A `---` rule is skipped, a line mentioning the
 user marker switches to the user's part, one mentioning the assistant
 marker to the assistant's part, and every other line is collected,
 stripped, into the part in force, or dropped before the first marker.

 The state machine is stated over the marks of the lines (what the loop's
 tests say about each line) and over the stripped lines; `Marks` and
 `Strips` connect it to the text.
 */
module ChatSections {
  import opened PyText

  const UserMarker: string := "_**User**_"
  const AssistantMarker: string := "_**Assistant**_"
  const Rule: string := "---"

  /** The loop's `section`: `None` before the first marker, then `"input"` or `"output"`. */
  datatype Section = Unset | Input | Output

  /** What a line says, by the tests the loop makes in their order. */
  datatype Mark = RuleLine | UserLine | AssistantLine | Plain

  /** What the loop does with one line. */
  datatype Kind = Separator | UserMark | AssistantMark | Dropped | InputLine | OutputLine

  // ---------------------------------------------------------------------
  // Lines and their marks

  /**
   The tests of one line, in the loop's order: a `---` line is a rule
   whatever it mentions, and a line with both markers is the user's.
   */
  function MarkOf(line: string): Mark {
    if Strip(line) == Rule then RuleLine
    else if Contains(line, UserMarker) then UserLine
    else if Contains(line, AssistantMarker) then AssistantLine
    else Plain
  }

  /** The marks of a whole chat, line by line. */
  function Marks(lines: seq<string>): (ms: seq<Mark>)
    ensures |ms| == |lines| && forall k :: 0 <= k < |lines| ==> ms[k] == MarkOf(lines[k])
  {
    seq(|lines|, k requires 0 <= k < |lines| => MarkOf(lines[k]))
  }

  /** The lines of a chat, each stripped. */
  function Strips(lines: seq<string>): (ts: seq<string>)
    ensures |ts| == |lines| && forall k :: 0 <= k < |lines| ==> ts[k] == Strip(lines[k])
  {
    seq(|lines|, k requires 0 <= k < |lines| => Strip(lines[k]))
  }

  // ---------------------------------------------------------------------
  // The state machine

  /** The kind of a line with mark `m` when `sec` is the section in force. */
  function Classify(m: Mark, sec: Section): Kind {
    match m
    case RuleLine => Separator
    case UserLine => UserMark
    case AssistantLine => AssistantMark
    case Plain => if sec == Input then InputLine else if sec == Output then OutputLine else Dropped
  }

  /** The section in force after a line with mark `m`. */
  function Next(sec: Section, m: Mark): Section {
    match m
    case UserLine => Input
    case AssistantLine => Output
    case _ => sec
  }

  /** The section in force once lines with marks `ms` have been read. */
  function SectionAfter(ms: seq<Mark>): Section
    decreases |ms|
  {
    if |ms| == 0 then Unset else Next(SectionAfter(ms[..|ms| - 1]), ms[|ms| - 1])
  }

  /** The kind of line `k`, in the section its predecessors left. */
  function KindAt(ms: seq<Mark>, k: nat): Kind
    requires k < |ms|
  {
    Classify(ms[k], SectionAfter(ms[..k]))
  }

  /** The kind of a line depends only on the lines before it. */
  lemma KindAtPrefix(ms: seq<Mark>, n: nat, k: nat)
    requires k < n <= |ms|
    ensures KindAt(ms[..n], k) == KindAt(ms, k)
  {
    assert ms[..n][..k] == ms[..k];
  }

  /** The positions of the lines of kind `kind`, in file order. */
  function Picked(ms: seq<Mark>, kind: Kind): (p: seq<nat>)
    ensures forall j :: 0 <= j < |p| ==> p[j] < |ms| && KindAt(ms, p[j]) == kind
    ensures forall j, j' :: 0 <= j < j' < |p| ==> p[j] < p[j']
    ensures forall k :: 0 <= k < |ms| && KindAt(ms, k) == kind ==> k in p
    decreases |ms|
  {
    if |ms| == 0 then []
    else
      var n := |ms| - 1;
      var q := Picked(ms[..n], kind);
      forall j | 0 <= j < |q|
        ensures KindAt(ms, q[j]) == kind
      {
        KindAtPrefix(ms, n, q[j]);
      }
      forall k | 0 <= k < n && KindAt(ms, k) == kind
        ensures k in q
      {
        KindAtPrefix(ms, n, k);
      }
      if KindAt(ms, n) == kind then q + [n] else q
  }

  /** The texts at the positions of kind `kind`, in file order. */
  function Collect(ms: seq<Mark>, ts: seq<string>, kind: Kind): seq<string>
    requires |ms| == |ts|
  {
    var p := Picked(ms, kind);
    seq(|p|, j requires 0 <= j < |p| => ts[p[j]])
  }

  /** Reading one more mark adds its position to its kind's positions only. */
  lemma PickedSnoc(ms: seq<Mark>, m: Mark, kind: Kind)
    ensures Picked(ms + [m], kind) == Picked(ms, kind) + (if Classify(m, SectionAfter(ms)) == kind then [|ms|] else [])
  {
    assert (ms + [m])[..|ms|] == ms;
  }

  /** Reading one more line adds its text to its bucket and nowhere else. */
  lemma CollectSnoc(ms: seq<Mark>, ts: seq<string>, m: Mark, t: string, kind: Kind)
    requires |ms| == |ts|
    ensures SectionAfter(ms + [m]) == Next(SectionAfter(ms), m)
    ensures Collect(ms + [m], ts + [t], kind)
            == Collect(ms, ts, kind) + (if Classify(m, SectionAfter(ms)) == kind then [t] else [])
  {
    assert (ms + [m])[..|ms|] == ms;
    PickedSnoc(ms, m, kind);
    var q := Picked(ms, kind);
    var r := Collect(ms + [m], ts + [t], kind);
    var e := Collect(ms, ts, kind) + (if Classify(m, SectionAfter(ms)) == kind then [t] else []);
    assert |r| == |e|;
    forall j | 0 <= j < |r|
      ensures r[j] == e[j]
    {
      if j < |q| {
        assert (ts + [t])[q[j]] == ts[q[j]];
      }
    }
  }

  /**
   Every line lands in at most one bucket: it is picked for `inputs`
   exactly when it is a plain line and the last marker before it was the
   user's, for `outputs` likewise with the assistant's.
   */
  lemma Partition(ms: seq<Mark>, k: nat)
    requires k < |ms|
    ensures k in Picked(ms, InputLine) <==> ms[k] == Plain && SectionAfter(ms[..k]) == Input
    ensures k in Picked(ms, OutputLine) <==> ms[k] == Plain && SectionAfter(ms[..k]) == Output
    ensures !(k in Picked(ms, InputLine) && k in Picked(ms, OutputLine))
  {
    var p, q := Picked(ms, InputLine), Picked(ms, OutputLine);
    if k in p {
      var j :| 0 <= j < |p| && p[j] == k;
    }
    if k in q {
      var j :| 0 <= j < |q| && q[j] == k;
    }
  }

  /**
   Removing a `---` line anywhere changes neither the section in force
   after the lines that follow it nor what is collected.
   */
  lemma {:induction false} DropRule(ma: seq<Mark>, ta: seq<string>, t: string, mb: seq<Mark>, tb: seq<string>, kind: Kind)
    requires |ma| == |ta| && |mb| == |tb| && kind != Separator
    ensures SectionAfter(ma + [RuleLine] + mb) == SectionAfter(ma + mb)
    ensures Collect(ma + [RuleLine] + mb, ta + [t] + tb, kind) == Collect(ma + mb, ta + tb, kind)
    decreases |mb|
  {
    if |mb| == 0 {
      assert ma + [RuleLine] + mb == ma + [RuleLine] && ma + mb == ma;
      assert ta + [t] + tb == ta + [t] && ta + tb == ta;
      CollectSnoc(ma, ta, RuleLine, t, kind);
    } else {
      var n := |mb| - 1;
      var mb', tb' := mb[..n], tb[..n];
      assert ma + [RuleLine] + mb == (ma + [RuleLine] + mb') + [mb[n]];
      assert ta + [t] + tb == (ta + [t] + tb') + [tb[n]];
      assert ma + mb == (ma + mb') + [mb[n]];
      assert ta + tb == (ta + tb') + [tb[n]];
      DropRule(ma, ta, t, mb', tb', kind);
      CollectSnoc(ma + [RuleLine] + mb', ta + [t] + tb', mb[n], tb[n], kind);
      CollectSnoc(ma + mb', ta + tb', mb[n], tb[n], kind);
    }
  }

  /** A marker line starts its section and is itself collected nowhere. */
  lemma MarkerStarts(ms: seq<Mark>, ts: seq<string>, m: Mark, t: string)
    requires |ms| == |ts| && (m == UserLine || m == AssistantLine)
    ensures SectionAfter(ms + [m]) == (if m == UserLine then Input else Output)
    ensures Collect(ms + [m], ts + [t], InputLine) == Collect(ms, ts, InputLine)
    ensures Collect(ms + [m], ts + [t], OutputLine) == Collect(ms, ts, OutputLine)
  {
    CollectSnoc(ms, ts, m, t, InputLine);
    CollectSnoc(ms, ts, m, t, OutputLine);
  }

  /** A line that names both roles, and is not a rule, is the user's marker:
      it switches to `inputs` and is itself collected nowhere. */
  lemma BothMarkersUser(ms: seq<Mark>, ts: seq<string>, line: string, t: string)
    requires |ms| == |ts| && Strip(line) != Rule
    requires Contains(line, UserMarker) && Contains(line, AssistantMarker)
    ensures MarkOf(line) == UserLine
    ensures SectionAfter(ms + [MarkOf(line)]) == Input
    ensures Collect(ms + [MarkOf(line)], ts + [t], InputLine) == Collect(ms, ts, InputLine)
    ensures Collect(ms + [MarkOf(line)], ts + [t], OutputLine) == Collect(ms, ts, OutputLine)
  {
    MarkerStarts(ms, ts, UserLine, t);
  }

  // ---------------------------------------------------------------------
  // The loop

  /** What ends up in a bucket: the lines picked for it, stripped, in file order. */
  function Bucket(lines: seq<string>, kind: Kind): seq<string> {
    Collect(Marks(lines), Strips(lines), kind)
  }

  /** One more line read: the section and the two buckets after it. */
  lemma LoopStep(ms: seq<Mark>, ts: seq<string>, i: nat)
    requires |ms| == |ts| && i < |ms|
    ensures SectionAfter(ms[..i + 1]) == Next(SectionAfter(ms[..i]), ms[i])
    ensures Collect(ms[..i + 1], ts[..i + 1], InputLine)
            == Collect(ms[..i], ts[..i], InputLine) + (if Classify(ms[i], SectionAfter(ms[..i])) == InputLine then [ts[i]] else [])
    ensures Collect(ms[..i + 1], ts[..i + 1], OutputLine)
            == Collect(ms[..i], ts[..i], OutputLine) + (if Classify(ms[i], SectionAfter(ms[..i])) == OutputLine then [ts[i]] else [])
  {
    assert ms[..i + 1] == ms[..i] + [ms[i]];
    assert ts[..i + 1] == ts[..i] + [ts[i]];
    CollectSnoc(ms[..i], ts[..i], ms[i], ts[i], InputLine);
    CollectSnoc(ms[..i], ts[..i], ms[i], ts[i], OutputLine);
  }

  /**
   The loop at `cursor_cost.py:24-35`: collect the user's lines into
   `inputs` and the assistant's into `outputs`.
   */
  method SplitChat(lines: seq<string>) returns (inputs: seq<string>, outputs: seq<string>)
    ensures inputs == Bucket(lines, InputLine)
    ensures outputs == Bucket(lines, OutputLine)
  {
    ghost var ms, ts := Marks(lines), Strips(lines);
    inputs, outputs := [], [];
    var section := Unset;
    assert ms[..0] == [] && ts[..0] == [];
    for i := 0 to |lines|
      invariant section == SectionAfter(ms[..i])
      invariant inputs == Collect(ms[..i], ts[..i], InputLine)
      invariant outputs == Collect(ms[..i], ts[..i], OutputLine)
    {
      var line := lines[i];
      LoopStep(ms, ts, i);
      var mark := MarkOf(line);
      if mark == RuleLine {
        continue;
      }
      if mark == UserLine {
        section := Input;
      } else if mark == AssistantLine {
        section := Output;
      } else if section == Input {
        inputs := inputs + [Strip(line)];
      } else if section == Output {
        outputs := outputs + [Strip(line)];
      }
    }
    assert ms[..|lines|] == ms && ts[..|lines|] == ts;
  }

  /**
   `all_inputs` and `all_outputs`: the two buckets of the chat, each joined
   with newlines.
   */
  method Transcript(lines: seq<string>) returns (allInputs: string, allOutputs: string)
    ensures allInputs == Join("\n", Bucket(lines, InputLine))
    ensures allOutputs == Join("\n", Bucket(lines, OutputLine))
  {
    var inputs, outputs := SplitChat(lines);
    allInputs := Join("\n", inputs);
    allOutputs := Join("\n", outputs);
  }

  /** A strip of a line as `readlines` yields it has no newline left. */
  lemma StrippedLine(l: string, r: string)
    requires IsLine(l) && StripOf(l, r)
    ensures NoChar(r, '\n')
  {
    var i, j :| 0 <= i <= j <= |l| && r == l[i..j] && Blank(l[..i]) && Blank(l[j..]);
    assert IsSpace('\n');
    SliceNoNewline(l, r, i, j);
  }

  /** A piece of a line that does not end in a newline has none. */
  lemma SliceNoNewline(l: string, r: string, i: nat, j: nat)
    requires IsLine(l) && i <= j <= |l| && r == l[i..j]
    requires |r| == 0 || r[|r| - 1] != '\n'
    ensures NoChar(r, '\n')
  {
    forall k | 0 <= k < |r| - 1
      ensures r[k] != '\n'
    {
      assert r[k] == l[i + k];
    }
  }

  /**
   The joined text splits back into the collected lines when the lines
   come from `readlines` and the bucket is not empty (an empty bucket
   joins to `""`, which splits into `[""]`).
   */
  lemma TranscriptSplits(lines: seq<string>, kind: Kind)
    requires forall k :: 0 <= k < |lines| ==> IsLine(lines[k])
    requires |Bucket(lines, kind)| > 0
    ensures Split(Join("\n", Bucket(lines, kind)), "\n") == Bucket(lines, kind)
  {
    var ms, ts := Marks(lines), Strips(lines);
    var p := Picked(ms, kind);
    var xs := Bucket(lines, kind);
    forall j | 0 <= j < |xs|
      ensures NoChar(xs[j], '\n')
    {
      var k := p[j];
      assert xs[j] == ts[k] == Strip(lines[k]);
      StrippedLine(lines[k], ts[k]);
    }
    SplitJoin('\n', xs);
  }
}
