/**
 * The formatting step of the pipeline: turn GSM8K and Orca-Math rows into
 * question / reasoning / answer records wrapped in tag markup, combine the
 * two sources, shuffle, and cut the result into a training and a validation
 * part. Loading from and writing to disk are left to the caller: rows come
 * in, and the three record lists that the script writes as `train.json`,
 * `val.json` and `all_data.json` come out.
 */
module FormatData {
  import opened Optional
  import opened PyStr
  import opened Patterns
  import PyRandom
  import Filtering

  /** The `source` field: `'gsm8k'` or `'orca_math'`. */
  datatype Source = Gsm8k | OrcaMath {
    function Name(): string {
      match this
      case Gsm8k => "gsm8k"
      case OrcaMath => "orca_math"
    }
  }

  /** A raw dataset row: its `question` and `answer` columns. */
  datatype RawExample = RawExample(question: string, answer: string)

  /** One normalised record, the dictionary the script writes to JSON. */
  datatype Record = Record(question: string, reasoning: string, answer: string,
                           formattedOutput: string, source: Source)

  // ---------------------------------------------------------------------
  // Output formatter
  // ---------------------------------------------------------------------

  const Head: string := "<thinking>\n"
  const Middle: string := "\n</thinking>\n<answer>"
  const Tail: string := "</answer>"

  /**
   * `format_for_competition`: the question is accepted and ignored. The
   * reasoning and the answer can be read back from the output whenever the
   * answer holds no `>`.
   */
  function FormatForCompetition(question: string, reasoning: string, answer: string): (out: string)
    ensures '>' !in answer ==> ParseFormatted(out) == Some((reasoning, answer))
  {
    LayoutParses(reasoning, answer);
    Head + reasoning + Middle + answer + Tail
  }

  /** Reads reasoning and answer back out of a formatter output; the answer is what follows the last `>` before the closing tag. */
  function ParseFormatted(out: string): Option<(string, string)> {
    if |out| < |Head| + |Tail| || out[..|Head|] != Head || out[|out| - |Tail|..] != Tail then None
    else
      var body := out[|Head|..|out| - |Tail|];
      match LastIndexOf(body, '>')
      case None => None
      case Some(k) =>
        if k + 1 < |Middle| || body[k + 1 - |Middle|..k + 1] != Middle then None
        else Some((body[..k + 1 - |Middle|], body[k + 1..]))
  }

  /** The formatted output does not depend on the question. */
  lemma FormatIgnoresQuestion(q1: string, q2: string, reasoning: string, answer: string)
    ensures FormatForCompetition(q1, reasoning, answer) == FormatForCompetition(q2, reasoning, answer)
  {
  }

  /** Reasoning and answer can be read back from the formatter's layout whenever the answer has no `>`. */
  lemma LayoutParses(reasoning: string, answer: string)
    ensures '>' !in answer ==> ParseFormatted(Head + reasoning + Middle + answer + Tail) == Some((reasoning, answer))
  {
    if '>' in answer {
      return;
    }
    var out := Head + reasoning + Middle + answer + Tail;
    var body := reasoning + Middle + answer;
    assert out == Head + body + Tail;
    assert out[..|Head|] == Head;
    assert out[|out| - |Tail|..] == Tail;
    assert out[|Head|..|out| - |Tail|] == body;
    var k := |reasoning| + |Middle| - 1;
    assert body[k] == '>';
    forall j | k < j < |body| ensures body[j] != '>' {
      assert body[j] == answer[j - k - 1];
    }
    assert LastIndexOf(body, '>') == Some(k);
    assert body[k + 1 - |Middle|..k + 1] == Middle;
    assert body[..k + 1 - |Middle|] == reasoning;
    assert body[k + 1..] == answer;
  }

  /** Conversely, whatever parses is exactly the formatter's output for what it parses to. */
  lemma FormatParseRoundTrip(out: string)
    ensures ParseFormatted(out).Some? ==>
              && '>' !in ParseFormatted(out).value.1
              && FormatForCompetition([], ParseFormatted(out).value.0, ParseFormatted(out).value.1) == out
  {
    if ParseFormatted(out).Some? {
      var body := out[|Head|..|out| - |Tail|];
      var k := LastIndexOf(body, '>').value;
      assert ParseFormatted(out).value == (body[..k + 1 - |Middle|], body[k + 1..]);
      Reassemble(out, body, k);
    }
  }

  /** The pieces ParseFormatted cuts out of a text put it back together. */
  lemma Reassemble(out: string, body: string, k: nat)
    requires |out| >= |Head| + |Tail| && out[..|Head|] == Head && out[|out| - |Tail|..] == Tail
    requires body == out[|Head|..|out| - |Tail|]
    requires |Middle| <= k + 1 <= |body| && body[k + 1 - |Middle|..k + 1] == Middle
    requires forall j :: k < j < |body| ==> body[j] != '>'
    ensures '>' !in body[k + 1..]
    ensures Head + body[..k + 1 - |Middle|] + Middle + body[k + 1..] + Tail == out
  {
    var answer := body[k + 1..];
    assert body == body[..k + 1 - |Middle|] + Middle + answer;
    assert out == out[..|Head|] + out[|Head|..|out| - |Tail|] + out[|out| - |Tail|..];
    forall j | 0 <= j < |answer| ensures answer[j] != '>' {
      assert answer[j] == body[k + 1 + j];
    }
  }

  // ---------------------------------------------------------------------
  // Numeric answers
  // ---------------------------------------------------------------------

  /** `s.replace(',', '')`. */
  function RemoveCommas(s: string): string {
    Replace(s, [','], [])
  }

  /** Only digits and at most one `.`: what a numeric answer is made of once its commas are gone. */
  predicate DigitsAndPoint(t: string) {
    (forall k :: 0 <= k < |t| ==> IsDigit(t[k]) || t[k] == '.') && multiset(t)['.'] <= 1
  }

  /** A number the GSM8K group pattern matches is also a token the Orca-Math pattern matches. */
  lemma Gsm8kNumberIsToken(s: string, i: nat, e: nat)
    requires IsGsm8kNumber(s, i, e)
    ensures IsOrcaToken(s, i, e)
  {
    if !IsGroupedInt(s, i, e) {
      var d: nat :| i < d < e <= |s| && IsGroupedInt(s, i, d) && s[d] == '.' && IsRun(s, d + 1, e, Digit);
      assert IsRun(s, i, d, DigitOrComma);
    }
  }

  /** A token is digits and commas with at most one `.`, beginning with a digit or a comma. */
  lemma TokenChars(s: string, i: nat, e: nat)
    requires IsOrcaToken(s, i, e)
    ensures i < e <= |s| && InClass(s[i], DigitOrComma)
    ensures forall k :: i <= k < e ==> InClass(s[k], DigitOrComma) || s[k] == '.'
    ensures multiset(s[i..e])['.'] <= 1
  {
    if IsRun(s, i, e, DigitOrComma) {
      NoPointInRun(s, i, e, DigitOrComma);
    } else {
      var d: nat :| i < d < e <= |s| && IsRun(s, i, d, DigitOrComma) && s[d] == '.' && IsRun(s, d + 1, e, Digit);
      OnePointAt(s, i, d, e);
    }
  }

  /** Two runs around one `.` hold exactly that `.`. */
  lemma OnePointAt(s: string, i: nat, d: nat, e: nat)
    requires IsRun(s, i, d, DigitOrComma) && d < |s| && s[d] == '.' && IsRun(s, d + 1, e, Digit)
    ensures multiset(s[i..e])['.'] == 1
  {
    NoPointInRun(s, i, d, DigitOrComma);
    NoPointInRun(s, d + 1, e, Digit);
    assert s[i..e] == s[i..d] + [s[d]] + s[d + 1..e];
    assert multiset(s[i..e]) == multiset(s[i..d]) + multiset{s[d]} + multiset(s[d + 1..e]);
  }

  /** A run of digits, or of digits and commas, holds no `.`. */
  lemma NoPointInRun(s: string, i: nat, e: nat, cls: CharClass)
    requires IsRun(s, i, e, cls) && cls != Space
    ensures multiset(s[i..e])['.'] == 0
  {
    forall k | 0 <= k < e - i ensures s[i..e][k] != '.' {
      assert s[i..e][k] == s[i + k];
    }
    assert '.' !in s[i..e];
  }

  /** A slice loses everything to `replace(',', '')` exactly when it holds only commas. */
  lemma SliceOnlyCommas(s: string, i: nat, e: nat)
    requires i <= e <= |s|
    ensures RemoveCommas(s[i..e]) == [] <==> forall p :: i <= p < e ==> s[p] == ','
  {
    var t := s[i..e];
    RemoveCharEmpty(t, ',');
    if forall k :: 0 <= k < |t| ==> t[k] == ',' {
      forall p | i <= p < e ensures s[p] == ',' {
        assert t[p - i] == s[p];
      }
    }
    if forall p :: i <= p < e ==> s[p] == ',' {
      forall k | 0 <= k < |t| ensures t[k] == ',' {
        assert t[k] == s[i + k];
      }
    }
  }

  /** Removing the commas from a token leaves digits and at most one `.`, and nothing at all exactly when the token was only commas. */
  lemma TokenWithoutCommas(s: string, i: nat, e: nat)
    requires IsOrcaToken(s, i, e)
    ensures DigitsAndPoint(RemoveCommas(s[i..e]))
    ensures RemoveCommas(s[i..e]) == [] <==> forall p :: i <= p < e ==> s[p] == ','
  {
    TokenChars(s, i, e);
    var t := s[i..e];
    var r := RemoveCommas(t);
    RemoveCharCounts(t, ',');
    forall k | 0 <= k < |r| ensures IsDigit(r[k]) || r[k] == '.' {
      assert r[k] in multiset(r);
      assert r[k] != ',';
      assert r[k] in multiset(t);
    }
    SliceOnlyCommas(s, i, e);
  }

  // ---------------------------------------------------------------------
  // GSM8K extractors
  // ---------------------------------------------------------------------

  /** `extract_gsm8k_answer`: the number after the leftmost qualifying `####`, commas removed, or None. */
  function ExtractGsm8kAnswer(answerText: string): (r: Option<string>)
    ensures r.None? <==> forall m: nat, w: nat :: !MarkerThenDigit(answerText, m, w)
    ensures r.Some? ==> |r.value| > 0 && IsDigit(r.value[0]) && DigitsAndPoint(r.value)
  {
    SearchNone(answerText);
    SearchGroup(answerText);
    match Search(answerText)
    case None => None
    case Some(m) =>
      GroupWithoutCommas(answerText, m.start, m.end);
      Some(RemoveCommas(answerText[m.start..m.end]))
  }

  /** A GSM8K group without its commas is a numeral that starts with a digit. */
  lemma GroupWithoutCommas(s: string, i: nat, e: nat)
    requires IsGsm8kNumber(s, i, e)
    ensures var r := RemoveCommas(s[i..e]); |r| > 0 && IsDigit(r[0]) && DigitsAndPoint(r)
  {
    Gsm8kNumberIsToken(s, i, e);
    TokenWithoutCommas(s, i, e);
    assert IsDigit(s[i]);
    assert s[i..e] == [s[i]] + s[i + 1..e];
    RemoveCommasCons(s[i], s[i + 1..e]);
  }

  /**
   * The GSM8K match read declaratively: `####` at m is the leftmost one that
   * whitespace and then a digit follow, the digit is s[j], and s[j..e] is
   * the longest number the group pattern allows from there.
   */
  ghost predicate LeftmostLongestNumber(s: string, m: nat, j: nat, e: nat) {
    && m + |Marker| <= j
    && MarkerThenDigit(s, m, j - m - |Marker|)
    && (forall m': nat, w': nat :: m' < m ==> !MarkerThenDigit(s, m', w'))
    && IsGsm8kNumber(s, j, e)
    && (forall e': nat :: IsGsm8kNumber(s, j, e') ==> e' <= e)
  }

  /** A found answer is the leftmost-longest number after `####`, with its commas removed. */
  lemma Gsm8kAnswerIsLeftmostLongest(answerText: string)
    ensures ExtractGsm8kAnswer(answerText).Some? ==>
              exists m: nat, j: nat, e: nat ::
                && LeftmostLongestNumber(answerText, m, j, e)
                && ExtractGsm8kAnswer(answerText).value == RemoveCommas(answerText[j..e])
  {
    SearchSpec(answerText);
    match Search(answerText)
    case None =>
    case Some(mt) =>
      assert LeftmostLongestNumber(answerText, mt.at, mt.start, mt.end);
  }

  /** The source's own example: "... #### 72" gives "72". */
  lemma Gsm8kPlainExample()
    ensures ExtractGsm8kAnswer("#### 72") == Some("72")
  {
    SearchPlainExample();
    assert "#### 72"[5..7] == "72";
    assert RemoveCommas([]) == [];
    assert "2" == ['2'] + [];
    RemoveCommasCons('2', []);
    assert "72" == ['7'] + "2";
    RemoveCommasCons('7', "2");
  }

  lemma SearchPlainExample()
    ensures Search("#### 72") == Some(Match(0, 5, 7))
  {
    var s := "#### 72";
    assert s[..4] == Marker;
    assert OccursAt(s, Marker, 0);
    assert RunEnd(s, 4, Space) == 5;
    assert QualifiesAt(s, 0);
    assert SearchFrom(s, 0) == Some(0);
    assert RunEnd(s, 5, Digit) == 7;
    assert CommaGroupsEnd(s, 7) == 7;
    assert NumberEnd(s, 5) == 7;
  }

  /** The thousands separator is dropped: "#### 1,000" gives "1000". */
  lemma Gsm8kGroupedExample()
    ensures ExtractGsm8kAnswer("#### 1,000") == Some("1000")
  {
    SearchGroupedExample();
    RemoveCommasExample();
    assert "#### 1,000"[5..10] == "1,000";
  }

  lemma SearchGroupedExample()
    ensures Search("#### 1,000") == Some(Match(0, 5, 10))
  {
    var s := "#### 1,000";
    assert s[..4] == Marker;
    assert OccursAt(s, Marker, 0);
    assert RunEnd(s, 4, Space) == 5;
    assert QualifiesAt(s, 0);
    assert SearchFrom(s, 0) == Some(0);
    assert RunEnd(s, 7, Digit) == 10;
    assert CommaGroupsEnd(s, 6) == 10;
    assert RunEnd(s, 5, Digit) == 6;
    assert NumberEnd(s, 5) == 10;
  }

  lemma RemoveCommasExample()
    ensures RemoveCommas("1,000") == "1000"
  {
    assert RemoveCommas([]) == [];
    RemoveCommasCons('0', []);
    assert "00" == ['0'] + "0";
    RemoveCommasCons('0', "0");
    assert "000" == ['0'] + "00";
    RemoveCommasCons('0', "00");
    assert ",000" == [','] + "000";
    RemoveCommasCons(',', "000");
    assert "1,000" == ['1'] + ",000";
    RemoveCommasCons('1', ",000");
  }

  /** `replace(',', '')` works one character at a time. */
  lemma RemoveCommasCons(c: char, t: string)
    ensures RemoveCommas([c] + t) == if c == ',' then RemoveCommas(t) else [c] + RemoveCommas(t)
  {
    assert ([c] + t)[1..] == t;
    assert ([c] + t)[..1] == [c];
  }

  /**
   * `extract_gsm8k_reasoning`: the text before the first `####`, stripped.
   * The second branch is kept as written; it is never taken, since `Split`
   * always yields at least one part.
   */
  function ExtractGsm8kReasoning(answerText: string): (r: string)
    ensures !Contains(r, Marker)
  {
    var parts := Split(answerText, Marker);
    SplitParts(answerText, Marker);
    StripKeepsAbsence(parts[0], Marker);
    if |parts| >= 1 then Strip(parts[0]) else Strip(answerText)
  }

  /** The reasoning is the stripped prefix before the first `####`, or the whole stripped text when there is none. */
  lemma Gsm8kReasoningIsPrefix(answerText: string)
    ensures ExtractGsm8kReasoning(answerText)
            == match FirstOccurrence(answerText, Marker)
               case None => Strip(answerText)
               case Some(i) => Strip(answerText[..i])
  {
    SplitParts(answerText, Marker);
  }

  /** The row used as the worked example: two reasoning lines, then `#### 24`. */
  const ExampleRow: RawExample := RawExample("Q", "step A\nstep B\n#### 24")

  lemma ExampleReasoning()
    ensures ExtractGsm8kReasoning(ExampleRow.answer) == "step A\nstep B"
  {
    var s := ExampleRow.answer;
    ExampleFind();
    Gsm8kReasoningIsPrefix(s);
    assert ExtractGsm8kReasoning(s) == Strip(s[..14]);
    ExampleHead();
    ExampleStrip();
  }

  lemma ExampleHead()
    ensures ExampleRow.answer[..14] == "step A\nstep B\n"
  {
  }

  lemma ExampleMarkerAt()
    ensures OccursAt(ExampleRow.answer, Marker, 14)
  {
    var s := ExampleRow.answer;
    assert s[14] == '#' && s[15] == '#' && s[16] == '#' && s[17] == '#';
    assert s[14..18] == Marker;
  }

  lemma ExampleFind()
    ensures FirstOccurrence(ExampleRow.answer, Marker) == Some(14)
  {
    ExampleMarkerAt();
    FirstOccurrenceAt(ExampleRow.answer, Marker, 14);
  }

  lemma ExampleTrimStart()
    ensures TrimStart("step A\nstep B\n") == "step A\nstep B\n"
  {
    var head := "step A\nstep B\n";
    assert head[0] == 's' && !IsSpace(head[0]);
  }

  lemma ExampleTrimEnd()
    ensures TrimEnd("step A\nstep B\n") == "step A\nstep B"
  {
    var head := "step A\nstep B\n";
    assert head[..13] == "step A\nstep B";
    assert TrimEnd(head[..13]) == head[..13];
  }

  lemma ExampleStrip()
    ensures Strip("step A\nstep B\n") == "step A\nstep B"
  {
    ExampleTrimStart();
    ExampleTrimEnd();
  }

  lemma ExampleQualifies()
    ensures QualifiesAt(ExampleRow.answer, 14)
  {
    var s := ExampleRow.answer;
    ExampleMarkerAt();
    assert RunEnd(s, 18, Space) == 19;
  }

  lemma ExampleNumber()
    ensures NumberEnd(ExampleRow.answer, 19) == 21
  {
    var s := ExampleRow.answer;
    assert RunEnd(s, 19, Digit) == 21;
    assert CommaGroupsEnd(s, 21) == 21;
  }

  lemma ExampleSearchFrom()
    ensures SearchFrom(ExampleRow.answer, 0) == Some(14)
  {
    var s := ExampleRow.answer;
    SearchSkips(s, 0, 14);
    ExampleQualifies();
  }

  lemma ExampleSearch()
    ensures Search(ExampleRow.answer) == Some(Match(14, 19, 21))
  {
    var s := ExampleRow.answer;
    ExampleSearchFrom();
    ExampleMarkerAt();
    assert RunEnd(s, 18, Space) == 19;
    ExampleNumber();
  }

  lemma ExampleAnswer()
    ensures ExtractGsm8kAnswer(ExampleRow.answer) == Some("24")
  {
    ExampleSearch();
    assert ExampleRow.answer[19..21] == "24";
    assert RemoveCommas([]) == [];
    assert "4" == ['4'] + [];
    RemoveCommasCons('4', []);
    assert "24" == ['2'] + "4";
    RemoveCommasCons('2', "4");
  }

  lemma ExampleFormatted()
    ensures FormatForCompetition("Q", "step A\nstep B", "24")
            == "<thinking>\nstep A\nstep B\n</thinking>\n<answer>24</answer>"
  {
    ExampleLayout();
  }

  lemma ExampleLayout()
    ensures Head + "step A\nstep B" + Middle + "24" + Tail
            == "<thinking>\nstep A\nstep B\n</thinking>\n<answer>24</answer>"
  {
    assert Head + "step A\nstep B" == "<thinking>\nstep A\nstep B";
    assert "<thinking>\nstep A\nstep B" + Middle == "<thinking>\nstep A\nstep B\n</thinking>\n<answer>";
    assert "<thinking>\nstep A\nstep B\n</thinking>\n<answer>" + "24" == "<thinking>\nstep A\nstep B\n</thinking>\n<answer>24";
  }

  /** The worked example: the row becomes a GSM8K record with reasoning "step A\nstep B" and answer "24". */
  lemma Gsm8kEndToEndExample()
    ensures Gsm8kRecord(ExampleRow)
            == Some(Record("Q", "step A\nstep B", "24",
                           "<thinking>\nstep A\nstep B\n</thinking>\n<answer>24</answer>", Gsm8k))
  {
    ExampleReasoning();
    ExampleAnswer();
    ExampleFormatted();
  }

  // ---------------------------------------------------------------------
  // GSM8K loop
  // ---------------------------------------------------------------------

  /**
   * What the GSM8K loop appends for one row, or None when it skips the row.
   * A row is kept exactly when its answer is found, and then becomes a GSM8K
   * record with its question, a numeric answer, `####`-free reasoning and the
   * formatter's layout, from which reasoning and answer read back.
   */
  function Gsm8kRecord(ex: RawExample): (r: Option<Record>)
    ensures r.Some? <==> ExtractGsm8kAnswer(ex.answer).Some?
    ensures r.Some? ==>
              && r.value.question == ex.question
              && r.value.source == Gsm8k && r.value.source.Name() == "gsm8k"
              && |r.value.answer| > 0 && DigitsAndPoint(r.value.answer)
              && !Contains(r.value.reasoning, Marker)
              && r.value.formattedOutput == FormatForCompetition(r.value.question, r.value.reasoning, r.value.answer)
              && ParseFormatted(r.value.formattedOutput) == Some((r.value.reasoning, r.value.answer))
  {
    var reasoning := ExtractGsm8kReasoning(ex.answer);
    match ExtractGsm8kAnswer(ex.answer)
    case None => None
    case Some(a) =>
      DigitsHaveNoAngle(a);
      Some(Record(ex.question, reasoning, a, FormatForCompetition(ex.question, reasoning, a), Gsm8k))
  }

  /** The same holds for every record the loop keeps. */
  lemma Gsm8kRecordsShape(xs: seq<RawExample>)
    ensures forall r :: r in Filtering.Kept(xs, Gsm8kRecord) ==>
              && r.source == Gsm8k
              && |r.answer| > 0 && DigitsAndPoint(r.answer)
              && !Contains(r.reasoning, Marker)
              && r.formattedOutput == FormatForCompetition(r.question, r.reasoning, r.answer)
  {
    forall r | r in Filtering.Kept(xs, Gsm8kRecord)
      ensures && r.source == Gsm8k
              && |r.answer| > 0 && DigitsAndPoint(r.answer)
              && !Contains(r.reasoning, Marker)
              && r.formattedOutput == FormatForCompetition(r.question, r.reasoning, r.answer)
    {
      Filtering.KeptFromSomeRow(xs, Gsm8kRecord, r);
      var i :| 0 <= i < |xs| && Gsm8kRecord(xs[i]) == Some(r);
    }
  }

  /** A row is kept exactly when its answer is found; kept records keep the rows' order. */
  lemma Gsm8kKeptInOrder(xs: seq<RawExample>)
    ensures var at := Filtering.KeptAt(xs, Gsm8kRecord);
            && |at| == |Filtering.Kept(xs, Gsm8kRecord)|
            && (forall k :: 0 <= k < |at| ==> at[k] < |xs| && Gsm8kRecord(xs[at[k]]) == Some(Filtering.Kept(xs, Gsm8kRecord)[k]))
            && (forall k, l :: 0 <= k < l < |at| ==> at[k] < at[l])
            && (forall i :: 0 <= i < |xs| ==> (ExtractGsm8kAnswer(xs[i].answer).Some? <==> i in at))
  {
    Filtering.KeptAtSource(xs, Gsm8kRecord);
    Filtering.KeptAtIncreasing(xs, Gsm8kRecord);
    Filtering.KeptAtExactly(xs, Gsm8kRecord);
  }

  /** The GSM8K loop: skip rows without an answer and count them, keep the rest in order. */
  method FormatGsm8k(examples: seq<RawExample>) returns (formatted: seq<Record>, skipped: nat)
    ensures formatted == Filtering.Kept(examples, Gsm8kRecord)
    ensures skipped == Filtering.Dropped(examples, Gsm8kRecord)
    ensures |formatted| + skipped == |examples|
  {
    formatted := [];
    skipped := 0;
    for i := 0 to |examples|
      invariant formatted == Filtering.Kept(examples[..i], Gsm8kRecord)
      invariant skipped == Filtering.Dropped(examples[..i], Gsm8kRecord)
    {
      Filtering.KeptStep(examples, i, Gsm8kRecord);
      var example := examples[i];
      var reasoning := ExtractGsm8kReasoning(example.answer);
      var finalAnswer := ExtractGsm8kAnswer(example.answer);
      if finalAnswer.None? {
        assert Gsm8kRecord(example).None?;
        skipped := skipped + 1;
        continue;
      }
      var record := Record(example.question, reasoning, finalAnswer.value,
                           FormatForCompetition(example.question, reasoning, finalAnswer.value), Gsm8k);
      assert Gsm8kRecord(example) == Some(record);
      formatted := formatted + [record];
    }
    assert examples[..|examples|] == examples;
    Filtering.KeptCount(examples, Gsm8kRecord);
  }

  // ---------------------------------------------------------------------
  // Orca-Math
  // ---------------------------------------------------------------------

  /** `MAX_ORCA`: only this many leading rows are used. */
  const MaxOrca: nat := 50000

  /** The answer used when the text holds no number. */
  const NoAnswer: string := "See reasoning above"

  /** The last match of `[\d,]+(?:\.\d+)?` with its commas removed, or the fallback literal. */
  function OrcaFinalAnswer(rawAnswer: string): (r: string)
    ensures r == NoAnswer <==> forall p :: 0 <= p < |rawAnswer| ==> !InClass(rawAnswer[p], DigitOrComma)
    ensures r != NoAnswer ==> DigitsAndPoint(r)
  {
    var numbers := FindAll(rawAnswer, 0);
    FindAllNone(rawAnswer, 0);
    if |numbers| > 0 then
      var last := numbers[|numbers| - 1];
      FindAllOrdered(rawAnswer, 0);
      TokenWithoutCommas(rawAnswer, last.start, last.end);
      RemoveCommas(rawAnswer[last.start..last.end])
    else
      NoAnswer
  }

  /**
   * When the text holds a number, the answer is the last findall match with
   * its commas removed; that match is the longest token of the pattern from
   * where it starts, and no digit or comma follows it.
   */
  lemma OrcaAnswerIsLastMatch(rawAnswer: string)
    ensures var ms := FindAll(rawAnswer, 0);
            |ms| > 0 ==>
              && OrcaFinalAnswer(rawAnswer) == RemoveCommas(rawAnswer[ms[|ms| - 1].start..ms[|ms| - 1].end])
              && LongestToken(rawAnswer, ms[|ms| - 1].start, ms[|ms| - 1].end)
              && (forall p :: ms[|ms| - 1].end <= p < |rawAnswer| ==> !InClass(rawAnswer[p], DigitOrComma))
  {
    var ms := FindAll(rawAnswer, 0);
    FindAllLast(rawAnswer, 0);
    if |ms| > 0 {
      FindAllOrdered(rawAnswer, 0);
      var last := ms[|ms| - 1];
      assert IsOrcaToken(rawAnswer, last.start, last.end) && last.end == TokenEnd(rawAnswer, last.start);
      TokenLongest(rawAnswer, last.start, last.end);
    }
  }

  /** s[i..e] matches `[\d,]+(?:\.\d+)?` and no longer slice from i does. */
  ghost predicate LongestToken(s: string, i: nat, e: nat) {
    IsOrcaToken(s, i, e) && forall e': nat :: IsOrcaToken(s, i, e') ==> e' <= e
  }

  /** A token that ends where the greedy scan ends is the longest one from its start. */
  lemma TokenLongest(s: string, i: nat, e: nat)
    requires IsOrcaToken(s, i, e)
    requires InClass(s[i], DigitOrComma) ==> e == TokenEnd(s, i)
    ensures LongestToken(s, i, e)
  {
    TokenChars(s, i, e);
    forall e': nat | IsOrcaToken(s, i, e') ensures e' <= e {
      TokenEndLongest(s, i, e');
    }
  }

  /** The answer is empty exactly when the last match is made of commas only, as in "costs 5 ,". */
  lemma OrcaAnswerEmpty(rawAnswer: string)
    ensures var ms := FindAll(rawAnswer, 0);
            OrcaFinalAnswer(rawAnswer) == [] <==>
              |ms| > 0 && forall p :: ms[|ms| - 1].start <= p < ms[|ms| - 1].end ==> rawAnswer[p] == ','
  {
    var ms := FindAll(rawAnswer, 0);
    if |ms| > 0 {
      var last := ms[|ms| - 1];
      SliceOnlyCommas(rawAnswer, last.start, last.end);
    } else {
      assert OrcaFinalAnswer(rawAnswer) == NoAnswer;
      assert NoAnswer != [];
    }
  }

  /** "costs 5 ," yields an empty answer: its last match is the lone comma. */
  lemma CommaOnlyAnswerIsEmpty()
    ensures OrcaFinalAnswer("costs 5 ,") == []
  {
    var s := "costs 5 ,";
    CommaOnlyMatches();
    assert s[8..9] == [','];
  }

  lemma CommaOnlyTail()
    ensures FindAll("costs 5 ,", 6) == [Span(6, 7), Span(8, 9)]
  {
    var s := "costs 5 ,";
    assert s[8] == ',' && s[7] == ' ' && s[6] == '5';
    assert RunEnd(s, 8, DigitOrComma) == 9;
    assert TokenEnd(s, 8) == 9;
    assert FindAll(s, 8) == [Span(8, 9)];
    assert FindAll(s, 7) == [Span(8, 9)];
    assert RunEnd(s, 6, DigitOrComma) == 7;
    assert TokenEnd(s, 6) == 7;
  }

  lemma CommaOnlyMatches()
    ensures FindAll("costs 5 ,", 0) == [Span(6, 7), Span(8, 9)]
  {
    var s := "costs 5 ,";
    CommaOnlyTail();
    assert s[5] == ' ';
    assert !InClass(s[0], DigitOrComma) && !InClass(s[1], DigitOrComma) && !InClass(s[2], DigitOrComma);
    assert !InClass(s[3], DigitOrComma) && !InClass(s[4], DigitOrComma);
    assert FindAll(s, 5) == FindAll(s, 6);
    assert FindAll(s, 4) == FindAll(s, 5);
    assert FindAll(s, 3) == FindAll(s, 4);
    assert FindAll(s, 2) == FindAll(s, 3);
    assert FindAll(s, 1) == FindAll(s, 2);
    assert FindAll(s, 0) == FindAll(s, 1);
  }

  /** r is what the Orca-Math loop makes of row ex: stripped reasoning, last number as answer, source `orca_math`. */
  predicate OrcaConverted(ex: RawExample, r: Record) {
    && r.question == ex.question
    && r.reasoning == Strip(ex.answer)
    && r.answer == OrcaFinalAnswer(ex.answer)
    && r.formattedOutput == FormatForCompetition(ex.question, r.reasoning, r.answer)
    && r.source == OrcaMath
  }

  /** The record the Orca-Math loop builds for one row. */
  function OrcaRecord(ex: RawExample): (r: Record)
    ensures OrcaConverted(ex, r) && r.source.Name() == "orca_math"
    ensures WellFormed(r)
    ensures ParseFormatted(r.formattedOutput) == Some((r.reasoning, r.answer))
  {
    AnswerHasNoAngle(OrcaFinalAnswer(ex.answer));
    var reasoning := Strip(ex.answer);
    var finalAnswer := OrcaFinalAnswer(ex.answer);
    Record(ex.question, reasoning, finalAnswer, FormatForCompetition(ex.question, reasoning, finalAnswer), OrcaMath)
  }

  /** The Orca-Math loop: the first MaxOrca rows, in order, none skipped. */
  method FormatOrcaMath(examples: seq<RawExample>) returns (formatted: seq<Record>)
    ensures |formatted| == if |examples| < MaxOrca then |examples| else MaxOrca
    ensures forall k :: 0 <= k < |formatted| ==> OrcaConverted(examples[k], formatted[k])
  {
    formatted := [];
    var i := 0;
    while i < |examples|
      invariant i <= |examples| && i <= MaxOrca
      invariant formatted == Filtering.Mapped(examples[..i], OrcaRecord)
    {
      if i >= MaxOrca {
        break;
      }
      Filtering.MappedStep(examples, i, OrcaRecord);
      var example := examples[i];
      var reasoning := Strip(example.answer);
      var finalAnswer := OrcaFinalAnswer(example.answer);
      var record := Record(example.question, reasoning, finalAnswer,
                           FormatForCompetition(example.question, reasoning, finalAnswer), OrcaMath);
      formatted := formatted + [record];
      i := i + 1;
    }
    MappedPrefixConverted(examples, i);
  }

  /** The records made from the first i rows are, position by position, those rows converted. */
  lemma MappedPrefixConverted(examples: seq<RawExample>, i: nat)
    requires i <= |examples|
    ensures |Filtering.Mapped(examples[..i], OrcaRecord)| == i
    ensures forall k :: 0 <= k < i ==> OrcaConverted(examples[k], Filtering.Mapped(examples[..i], OrcaRecord)[k])
  {
    Filtering.MappedAt(examples[..i], OrcaRecord);
    forall k | 0 <= k < i ensures OrcaConverted(examples[k], Filtering.Mapped(examples[..i], OrcaRecord)[k]) {
      assert examples[..i][k] == examples[k];
    }
  }

  // ---------------------------------------------------------------------
  // Combine, shuffle, split
  // ---------------------------------------------------------------------

  /** `int(n * 0.95)`, read as exact arithmetic. */
  function SplitIndex(n: nat): (k: nat)
    ensures k <= n
  {
    n * 95 / 100
  }

  /** Concatenate the two sources, shuffle in place, and cut at the split index. */
  method CombineAndSplit(gsm8kFormatted: seq<Record>, orcaFormatted: seq<Record>, randbelow: nat -> nat)
    returns (allExamples: seq<Record>, trainData: seq<Record>, valData: seq<Record>)
    ensures allExamples == PyRandom.Shuffled(gsm8kFormatted + orcaFormatted, randbelow)
    ensures multiset(allExamples) == multiset(gsm8kFormatted) + multiset(orcaFormatted)
    ensures |trainData| == SplitIndex(|allExamples|) <= |allExamples|
    ensures trainData + valData == allExamples
    ensures |trainData| + |valData| == |allExamples| == |gsm8kFormatted| + |orcaFormatted|
  {
    var combined := gsm8kFormatted + orcaFormatted;
    var buffer := new Record[|combined|](k requires 0 <= k < |combined| => combined[k]);
    assert buffer[..] == combined;
    PyRandom.Shuffle(buffer, randbelow);
    allExamples := buffer[..];
    PyRandom.ShuffledPermutes(combined, randbelow);
    var splitIdx := SplitIndex(|allExamples|);
    trainData := allExamples[..splitIdx];
    valData := allExamples[splitIdx..];
    assert trainData + valData == allExamples;
  }

  // ---------------------------------------------------------------------
  // The whole step
  // ---------------------------------------------------------------------

  /** A record whose output is the formatter's layout and whose answer is numeric or the fallback. */
  predicate WellFormed(r: Record) {
    && r.formattedOutput == FormatForCompetition(r.question, r.reasoning, r.answer)
    && (r.answer == NoAnswer || DigitsAndPoint(r.answer))
  }

  /** Reasoning and answer of a well-formed record can be read back from its formatted output. */
  lemma WellFormedParses(r: Record)
    requires WellFormed(r)
    ensures ParseFormatted(r.formattedOutput) == Some((r.reasoning, r.answer))
  {
    AnswerHasNoAngle(r.answer);
  }

  /** Neither a numeric answer nor the fallback holds a `<` or a `>`. */
  lemma AnswerHasNoAngle(answer: string)
    requires answer == NoAnswer || DigitsAndPoint(answer)
    ensures '<' !in answer && '>' !in answer
  {
    if answer == NoAnswer {
      FallbackHasNoAngle();
    } else {
      DigitsHaveNoAngle(answer);
    }
  }

  lemma FallbackHasNoAngle()
    ensures '<' !in NoAnswer && '>' !in NoAnswer
  {
  }

  lemma DigitsHaveNoAngle(t: string)
    requires DigitsAndPoint(t)
    ensures '<' !in t && '>' !in t
  {
  }

  /**
   * The script's main flow. A source whose loading fails (None) contributes
   * nothing; otherwise GSM8K rows are filtered, the leading Orca-Math rows
   * converted, and everything is combined, shuffled and split.
   */
  method FormatAll(gsm8kTrain: Option<seq<RawExample>>, orcaTrain: Option<seq<RawExample>>, randbelow: nat -> nat)
    returns (gsm8kFormatted: seq<Record>, orcaFormatted: seq<Record>,
             allExamples: seq<Record>, trainData: seq<Record>, valData: seq<Record>)
    ensures gsm8kFormatted == if gsm8kTrain.None? then [] else Filtering.Kept(gsm8kTrain.value, Gsm8kRecord)
    ensures orcaTrain.None? ==> orcaFormatted == []
    ensures orcaTrain.Some? ==> |orcaFormatted| == if |orcaTrain.value| < MaxOrca then |orcaTrain.value| else MaxOrca
    ensures orcaTrain.Some? ==> forall k :: 0 <= k < |orcaFormatted| ==> OrcaConverted(orcaTrain.value[k], orcaFormatted[k])
    ensures allExamples == PyRandom.Shuffled(gsm8kFormatted + orcaFormatted, randbelow)
    ensures multiset(allExamples) == multiset(gsm8kFormatted) + multiset(orcaFormatted)
    ensures trainData + valData == allExamples && |trainData| == SplitIndex(|allExamples|)
    ensures forall r :: r in allExamples ==> WellFormed(r) && ParseFormatted(r.formattedOutput) == Some((r.reasoning, r.answer))
  {
    gsm8kFormatted := [];
    if gsm8kTrain.Some? {
      var skipped;
      gsm8kFormatted, skipped := FormatGsm8k(gsm8kTrain.value);
      Gsm8kRecordsShape(gsm8kTrain.value);
    }
    orcaFormatted := [];
    if orcaTrain.Some? {
      orcaFormatted := FormatOrcaMath(orcaTrain.value);
    }
    allExamples, trainData, valData := CombineAndSplit(gsm8kFormatted, orcaFormatted, randbelow);
    forall r | r in allExamples ensures WellFormed(r) && ParseFormatted(r.formattedOutput) == Some((r.reasoning, r.answer)) {
      assert r in multiset(allExamples);
      assert r in gsm8kFormatted || r in orcaFormatted;
      WellFormedParses(r);
    }
  }
}
