/**
 * The tag-fixing pass that follows the formatting step: in every record's
 * formatted output, `<thinking>` becomes `<reasoning>` and `</thinking>`
 * becomes `</reasoning>`; all other fields stay as they are.
 */
module TagRewrite {
  import opened PyStr
  import opened FormatData

  const OldOpen: string := "<thinking>"
  const NewOpen: string := "<reasoning>"
  const OldClose: string := "</thinking>"
  const NewClose: string := "</reasoning>"

  /** `s.replace('<thinking>', '<reasoning>').replace('</thinking>', '</reasoning>')`. */
  function FixTags(s: string): (r: string)
    ensures !Contains(r, OldOpen) && !Contains(r, OldClose)
  {
    var t := Replace(s, OldOpen, NewOpen);
    assert NewOpen[1] != OldOpen[1];
    ReplaceLeavesNo(s, OldOpen, NewOpen, OldOpen);
    assert NewClose[2] != OldClose[2];
    ReplaceLeavesNo(t, OldClose, NewClose, OldClose);
    assert NewClose[1] != OldOpen[1];
    ReplaceLeavesNo(t, OldClose, NewClose, OldOpen);
    Replace(t, OldClose, NewClose)
  }

  /** A text without either old tag passes through unchanged, and only such a text does. */
  lemma FixTagsFixedPoints(s: string)
    ensures FixTags(s) == s <==> !Contains(s, OldOpen) && !Contains(s, OldClose)
  {
    if !Contains(s, OldOpen) && !Contains(s, OldClose) {
      ReplaceAbsent(s, OldOpen, NewOpen);
      ReplaceAbsent(s, OldClose, NewClose);
    }
  }

  /** Running the pass a second time changes nothing. */
  lemma FixTagsIdempotent(s: string)
    ensures FixTags(FixTags(s)) == FixTags(s)
  {
    FixTagsFixedPoints(FixTags(s));
  }

  /** The formatter's fixed pieces once the tags are renamed: `<reasoning>\n` and `\n</reasoning>\n<answer>`. */
  const NewHead: string := NewOpen + "\n"
  const AnswerOpen: string := "\n<answer>"
  const NewMiddle: string := "\n" + NewClose + AnswerOpen

  /** No occurrence of pat can straddle a seam of h + _ + m + _ + t. */
  predicate Seams(pat: string, h: string, m: string, t: string) {
    && |pat| > 0 && |h| > 0 && |m| > 0 && |t| > 0
    && (forall j :: 0 <= j < |pat| - 1 ==> pat[j] != h[|h| - 1])
    && (forall j :: 0 < j < |pat| ==> pat[j] != m[0])
    && (forall j :: 0 <= j < |pat| - 1 ==> pat[j] != m[|m| - 1])
    && (forall j :: 0 < j < |pat| ==> pat[j] != t[0])
  }

  /** Under those seams, `replace` works piece by piece on h + r + m + a + t. */
  lemma ReplaceFive(h: string, r: string, m: string, a: string, t: string, pat: string, sub: string)
    requires Seams(pat, h, m, t)
    ensures Replace(h + r + m + a + t, pat, sub)
            == Replace(h, pat, sub) + Replace(r, pat, sub) + Replace(m, pat, sub)
               + Replace(a, pat, sub) + Replace(t, pat, sub)
  {
    var x1 := h + r;
    var x2 := x1 + m;
    var x3 := x2 + a;
    ReplaceConcat(h, r, pat, sub);
    ReplaceConcat(x1, m, pat, sub);
    assert x2[|x2| - 1] == m[|m| - 1];
    ReplaceConcat(x2, a, pat, sub);
    ReplaceConcat(x3, t, pat, sub);
  }

  /** Where the formatter's fixed pieces meet the free text, neither old tag can straddle. */
  lemma LiteralSeams()
    ensures Seams(OldOpen, Head, Middle, Tail)
    ensures Seams(OldClose, NewHead, Middle, Tail)
  {
    assert Head[|Head| - 1] == '\n' && NewHead[|NewHead| - 1] == '\n';
    assert Middle[0] == '\n' && Middle[|Middle| - 1] == '>' && Tail[0] == '<';
  }

  /** The first replacement turns the opening line into `<reasoning>`. */
  lemma HeadOpen()
    ensures Replace(Head, OldOpen, NewOpen) == NewHead
  {
    assert Head == OldOpen + "\n";
    ReplaceAtFront(OldOpen, "\n", NewOpen);
    assert Replace("\n", OldOpen, NewOpen) == "\n";
  }

  /** The first replacement leaves the middle and the closing piece alone. */
  lemma RestOpen()
    ensures Replace(Middle, OldOpen, NewOpen) == Middle
    ensures Replace(Tail, OldOpen, NewOpen) == Tail
  {
    AbsentByPair(Middle, OldOpen);
    ReplaceAbsent(Middle, OldOpen, NewOpen);
    ContainsLength(Tail, OldOpen);
    ReplaceAbsent(Tail, OldOpen, NewOpen);
  }

  /** The second replacement leaves the new opening line and the closing piece alone. */
  lemma EndsClose()
    ensures Replace(NewHead, OldClose, NewClose) == NewHead
    ensures Replace(Tail, OldClose, NewClose) == Tail
  {
    AbsentByPair(NewHead, OldClose);
    ReplaceAbsent(NewHead, OldClose, NewClose);
    ContainsLength(Tail, OldClose);
    ReplaceAbsent(Tail, OldClose, NewClose);
  }

  /** The second replacement turns the middle's closing tag into `</reasoning>`. */
  lemma MiddleClose()
    ensures Replace(Middle, OldClose, NewClose) == NewMiddle
  {
    MiddleSplit();
    NewlineThenClose();
    AnswerOpenClose();
  }

  lemma MiddleSplit()
    ensures Middle == "\n" + (OldClose + AnswerOpen)
  {
  }

  lemma NewlineThenClose()
    ensures Replace("\n" + (OldClose + AnswerOpen), OldClose, NewClose)
            == "\n" + Replace(OldClose + AnswerOpen, OldClose, NewClose)
  {
    assert forall j :: 0 <= j < |OldClose| - 1 ==> OldClose[j] != "\n"[0];
    ReplaceConcat("\n", OldClose + AnswerOpen, OldClose, NewClose);
    assert Replace("\n", OldClose, NewClose) == "\n";
  }

  lemma AnswerOpenClose()
    ensures Replace(OldClose + AnswerOpen, OldClose, NewClose) == NewClose + AnswerOpen
  {
    ReplaceAtFront(OldClose, AnswerOpen, NewClose);
    AbsentByPair(AnswerOpen, OldClose);
    ReplaceAbsent(AnswerOpen, OldClose, NewClose);
  }

  /**
   * On a formatted output whose reasoning and answer hold neither old tag,
   * the pass yields the same layout with `<reasoning>` tags.
   */
  lemma FixTagsOfLayout(reasoning: string, answer: string)
    requires !Contains(reasoning, OldOpen) && !Contains(reasoning, OldClose)
    requires !Contains(answer, OldOpen) && !Contains(answer, OldClose)
    ensures FixTags(Head + reasoning + Middle + answer + Tail)
            == NewHead + reasoning + NewMiddle + answer + Tail
  {
    LiteralSeams();
    HeadOpen();
    RestOpen();
    ReplaceAbsent(reasoning, OldOpen, NewOpen);
    ReplaceAbsent(answer, OldOpen, NewOpen);
    ReplaceFive(Head, reasoning, Middle, answer, Tail, OldOpen, NewOpen);
    EndsClose();
    MiddleClose();
    ReplaceAbsent(reasoning, OldClose, NewClose);
    ReplaceAbsent(answer, OldClose, NewClose);
    ReplaceFive(NewHead, reasoning, Middle, answer, Tail, OldClose, NewClose);
  }

  /** The same rewrite, stated on the formatter's output. */
  lemma FixTagsOfFormatted(question: string, reasoning: string, answer: string)
    requires !Contains(reasoning, OldOpen) && !Contains(reasoning, OldClose)
    requires !Contains(answer, OldOpen) && !Contains(answer, OldClose)
    ensures FixTags(FormatForCompetition(question, reasoning, answer))
            == NewHead + reasoning + NewMiddle + answer + Tail
  {
    FixTagsOfLayout(reasoning, answer);
  }

  /** A well-formed record from the formatting step ends up in the `<reasoning>` layout, unless its reasoning itself holds an old tag. */
  lemma FixWellFormed(r: Record)
    requires WellFormed(r)
    requires !Contains(r.reasoning, OldOpen) && !Contains(r.reasoning, OldClose)
    ensures FixRecord(r).formattedOutput == NewHead + r.reasoning + NewMiddle + r.answer + Tail
  {
    AnswerHasNoAngle(r.answer);
    AnswerHasNoTag(r.answer);
    FixTagsOfFormatted(r.question, r.reasoning, r.answer);
  }

  /** A text without `<` holds no tag. */
  lemma AnswerHasNoTag(answer: string)
    requires '<' !in answer
    ensures !Contains(answer, OldOpen) && !Contains(answer, OldClose)
  {
    AbsentByPair(answer, OldOpen);
    AbsentByPair(answer, OldClose);
  }

  /**
   * The worked example through both steps: the GSM8K row with reasoning
   * "step A\nstep B" and `#### 24` ends up as `<reasoning>` markup.
   */
  lemma EndToEndExample()
    ensures Gsm8kRecord(ExampleRow).Some?
    ensures FixRecord(Gsm8kRecord(ExampleRow).value)
            == Record("Q", "step A\nstep B", "24",
                      "<reasoning>\nstep A\nstep B\n</reasoning>\n<answer>24</answer>", Gsm8k)
  {
    Gsm8kEndToEndExample();
    ExampleFixTags();
  }

  lemma ExampleFixTags()
    ensures FixTags("<thinking>\nstep A\nstep B\n</thinking>\n<answer>24</answer>")
            == "<reasoning>\nstep A\nstep B\n</reasoning>\n<answer>24</answer>"
  {
    AnswerHasNoTag("step A\nstep B");
    AnswerHasNoTag("24");
    FixTagsOfFormatted("Q", "step A\nstep B", "24");
    ExampleFormatted();
    ExampleNewLayout();
  }

  lemma ExampleNewLayout()
    ensures NewHead + "step A\nstep B" + NewMiddle + "24" + Tail
            == "<reasoning>\nstep A\nstep B\n</reasoning>\n<answer>24</answer>"
  {
    assert NewHead + "step A\nstep B" == "<reasoning>\nstep A\nstep B";
    assert "<reasoning>\nstep A\nstep B" + NewMiddle == "<reasoning>\nstep A\nstep B\n</reasoning>\n<answer>";
    assert "<reasoning>\nstep A\nstep B\n</reasoning>\n<answer>" + "24" == "<reasoning>\nstep A\nstep B\n</reasoning>\n<answer>24";
  }

  /** One record after the pass: only its formatted output is rewritten. */
  function FixRecord(r: Record): Record {
    r.(formattedOutput := FixTags(r.formattedOutput))
  }

  /** The records after the pass. */
  function FixedRecords(rs: seq<Record>): (out: seq<Record>)
    ensures |out| == |rs|
    ensures forall k :: 0 <= k < |rs| ==> out[k] == FixRecord(rs[k])
  {
    seq(|rs|, k requires 0 <= k < |rs| => FixRecord(rs[k]))
  }

  /** After the pass no output holds an old tag, and question, reasoning, answer and source are untouched. */
  lemma FixedRecordsClean(rs: seq<Record>)
    ensures forall k :: 0 <= k < |rs| ==>
              && !Contains(FixedRecords(rs)[k].formattedOutput, OldOpen)
              && !Contains(FixedRecords(rs)[k].formattedOutput, OldClose)
              && FixedRecords(rs)[k].question == rs[k].question
              && FixedRecords(rs)[k].reasoning == rs[k].reasoning
              && FixedRecords(rs)[k].answer == rs[k].answer
              && FixedRecords(rs)[k].source == rs[k].source
  {
  }

  /** Running the pass over a file a second time changes nothing. */
  lemma FixedRecordsIdempotent(rs: seq<Record>)
    ensures FixedRecords(FixedRecords(rs)) == FixedRecords(rs)
  {
    forall k | 0 <= k < |rs| ensures FixRecord(FixRecord(rs[k])) == FixRecord(rs[k]) {
      FixTagsIdempotent(rs[k].formattedOutput);
    }
  }

  /** The in-place loop over one file's records. */
  method FixFormattedOutputs(data: array<Record>)
    modifies data
    ensures data[..] == FixedRecords(old(data[..]))
  {
    for i := 0 to data.Length
      invariant forall k :: 0 <= k < i ==> data[k] == FixRecord(old(data[k]))
      invariant forall k :: i <= k < data.Length ==> data[k] == old(data[k])
    {
      data[i] := data[i].(formattedOutput := FixTags(data[i].formattedOutput));
    }
  }
}
