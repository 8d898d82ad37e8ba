/**
  `splitNumberedQuestions`: the text of a list item or paragraph is cut into lines; a line that
  starts with a number followed by `.` or `)` and whitespace opens a new question, and the lines
  up to the next such line belong to it, joined and with their whitespace runs collapsed. When no
  line is numbered, every non-blank line is a question of its own.
 */
module Segmenter {
  import opened Common
  import opened Strings

  /** `text.replace(/\r\n/g, "\n").split("\n")`. */
  function Lines(text: string): (r: seq<string>)
    ensures |r| >= 1
  {
    Split(NormalizeNewlines(text), '\n')
  }

  /**
    `/^\s*\d+[\.\)]\s+/.test(line)`: optional whitespace, a run of digits, a `.` or `)`, then at
    least one whitespace character. The greedy runs need no backtracking: a shorter digit run
    would leave a digit where `.` or `)` is needed.
   */
  predicate IsNumbered(line: string) {
    var a := line[LeadingSpaces(line)..];
    var n := DigitRun(a);
    n > 0 && n + 1 < |a| && (a[n] == '.' || a[n] == ')') && IsSpace(a[n + 1])
  }

  /** `current.join(" ").replace(/\s+/g, " ").trim()`: the lines of one question as one string. */
  function Flush(current: seq<string>): (r: string)
    ensures IsNormalized(r)
  {
    Normalize(Join(current, " "))
  }

  /** The loop's variables: the finished questions, the lines of the open one, and `hasNumberPattern`. */
  datatype Scan = Scan(questions: seq<string>, current: seq<string>, hasNumberPattern: bool)

  const Start: Scan := Scan([], [], false)

  /** One iteration of the loop over the lines. */
  function Step(st: Scan, rawLine: string): Scan {
    var line := Trim(rawLine);
    if line == "" then
      if st.current != [] then st.(current := st.current + [""]) else st
    else if IsNumbered(line) then
      if st.current != [] then Scan(st.questions + [Flush(st.current)], [line], true)
      else Scan(st.questions, [line], true)
    else
      st.(current := st.current + [line])
  }

  /** The loop run from state `st` over `lines`. */
  function ScanFrom(st: Scan, lines: seq<string>): Scan
    decreases |lines|
  {
    if lines == [] then st else ScanFrom(Step(st, lines[0]), lines[1..])
  }

  /** After the loop: the open question, if any, is flushed too. */
  function Finish(st: Scan): seq<string> {
    if st.current != [] then st.questions + [Flush(st.current)] else st.questions
  }

  /** `lines.map((l) => l.trim())`. */
  function TrimAll(lines: seq<string>): (r: seq<string>)
    ensures |r| == |lines|
    ensures forall k | 0 <= k < |lines| :: r[k] == Trim(lines[k])
  {
    if lines == [] then [] else [Trim(lines[0])] + TrimAll(lines[1..])
  }

  /** `.filter(Boolean)` on strings: the non-empty ones, in order. */
  function NonEmpty(xs: seq<string>): (r: seq<string>)
    ensures |r| <= |xs|
    ensures forall k | 0 <= k < |r| :: r[k] != "" && r[k] in xs
    ensures forall k | 0 <= k < |xs| && xs[k] != "" :: xs[k] in r
    ensures (forall k | 0 <= k < |xs| :: xs[k] != "") ==> r == xs
    ensures |xs| == 1 ==> r == (if xs[0] == "" then [] else xs)
  {
    if xs == [] then []
    else (if xs[0] != "" then [xs[0]] else []) + NonEmpty(xs[1..])
  }

  /**
    The filter works element by element: filtering a concatenation is filtering each part, so
    with the one-element case every non-empty entry is kept, in order and as often as it occurs.
   */
  lemma {:induction false} NonEmptyAppend(a: seq<string>, b: seq<string>)
    ensures NonEmpty(a + b) == NonEmpty(a) + NonEmpty(b)
    decreases |a|
  {
    if a == [] {
      assert a + b == b;
    } else {
      assert (a + b)[0] == a[0] && (a + b)[1..] == a[1..] + b;
      NonEmptyAppend(a[1..], b);
    }
  }

  /** Dropping empty strings does not change what the strings spell together. */
  lemma {:induction false} NonEmptyConcat(xs: seq<string>)
    ensures Concat(NonEmpty(xs)) == Concat(xs)
    decreases |xs|
  {
    if xs != [] {
      NonEmptyConcat(xs[1..]);
      var head := if xs[0] != "" then [xs[0]] else [];
      ConcatAppend(head, NonEmpty(xs[1..]));
      assert Concat([xs[0]]) == xs[0] + Concat([]);
    }
  }

  /** What `splitNumberedQuestions(text)` returns. */
  function SplitNumbered(text: string): seq<string> {
    var lines := Lines(text);
    var st := ScanFrom(Start, lines);
    if !st.hasNumberPattern then NonEmpty(TrimAll(lines)) else NonEmpty(Finish(st))
  }

  /** `splitNumberedQuestions`: the line loop with its three variables, then the two filters. */
  method SplitNumberedQuestions(text: string) returns (r: seq<string>)
    ensures r == SplitNumbered(text)
  {
    var lines := Lines(text);
    var questions: seq<string> := [];
    var current: seq<string> := [];
    var hasNumberPattern := false;
    for i := 0 to |lines|
      invariant ScanFrom(Scan(questions, current, hasNumberPattern), lines[i..]) == ScanFrom(Start, lines)
    {
      ghost var before := Scan(questions, current, hasNumberPattern);
      assert lines[i..][1..] == lines[i + 1..];
      var line := Trim(lines[i]);
      if line == "" {
        if current != [] {
          current := current + [""];
        }
      } else if IsNumbered(line) {
        hasNumberPattern := true;
        if current != [] {
          questions := questions + [Flush(current)];
          current := [];
        }
        current := current + [line];
      } else {
        current := current + [line];
      }
      assert Scan(questions, current, hasNumberPattern) == Step(before, lines[i]);
    }
    assert lines[|lines|..] == [];
    if current != [] {
      questions := questions + [Flush(current)];
    }
    if !hasNumberPattern {
      return NonEmpty(TrimAll(lines));
    }
    return NonEmpty(questions);
  }

  /** A line that opens a question. */
  predicate NumberedLine(rawLine: string) {
    IsNumbered(Trim(rawLine))
  }

  /** How many lines open a question. */
  function NumberedCount(lines: seq<string>): nat {
    if lines == [] then 0 else (if NumberedLine(lines[0]) then 1 else 0) + NumberedCount(lines[1..])
  }

  /** Some non-blank line comes before the first numbered line (or there is no numbered line). */
  predicate HasPreamble(lines: seq<string>) {
    lines != [] && !NumberedLine(lines[0]) && (Trim(lines[0]) != "" || HasPreamble(lines[1..]))
  }

  /** The number of entries `Finish` will produce from a state. */
  function Pending(st: Scan): nat {
    |st.questions| + (if st.current != [] then 1 else 0)
  }

  /**
    What the loop keeps true: the finished questions are non-empty and normalised, and an open
    question starts with a non-blank line (so flushing it never gives the empty string).
   */
  ghost predicate Inv(st: Scan) {
    (st.current == [] || !AllSpace(st.current[0]))
    && forall k | 0 <= k < |st.questions| :: st.questions[k] != "" && IsNormalized(st.questions[k])
  }

  /** A joined list of strings begins with the first of them. */
  lemma JoinStartsWith(parts: seq<string>, sep: string)
    requires parts != []
    ensures |parts[0]| <= |Join(parts, sep)| && Join(parts, sep)[..|parts[0]|] == parts[0]
  {
    if |parts| > 1 {
      assert Join(parts, sep) == parts[0] + (sep + Join(parts[1..], sep));
    }
  }

  /** Flushing an open question that starts with a non-blank line gives a non-empty string. */
  lemma FlushNonEmpty(current: seq<string>)
    requires current != [] && !AllSpace(current[0])
    ensures Flush(current) != ""
  {
    var j := Join(current, " ");
    JoinStartsWith(current, " ");
    var k :| 0 <= k < |current[0]| && !IsSpace(current[0][k]);
    assert j[k] == j[..|current[0]|][k] == current[0][k];
  }

  /** A trimmed non-empty line is not all whitespace. */
  lemma TrimmedNotBlank(rawLine: string)
    requires Trim(rawLine) != ""
    ensures !AllSpace(Trim(rawLine))
  {
    assert !IsSpace(Trim(rawLine)[0]);
  }

  /** One line's effect on the entry count, on whether a question is open, and on `hasNumberPattern`. */
  lemma StepCount(st: Scan, rawLine: string)
    ensures Pending(Step(st, rawLine)) == Pending(st) + (if NumberedLine(rawLine) then 1 else 0)
      + (if st.current == [] && !NumberedLine(rawLine) && Trim(rawLine) != "" then 1 else 0)
    ensures Step(st, rawLine).current == [] <==> st.current == [] && Trim(rawLine) == ""
    ensures Step(st, rawLine).hasNumberPattern <==> st.hasNumberPattern || NumberedLine(rawLine)
  {
  }

  lemma StepKeepsInv(st: Scan, rawLine: string)
    requires Inv(st)
    ensures Inv(Step(st, rawLine))
  {
    var line := Trim(rawLine);
    if line != "" {
      TrimmedNotBlank(rawLine);
      if st.current != [] {
        FlushNonEmpty(st.current);
      }
    }
  }

  /** Every line adds one entry if it is numbered, and the first non-blank line of a preamble adds one more. */
  lemma {:induction false} ScanCount(st: Scan, lines: seq<string>)
    requires Inv(st)
    ensures Inv(ScanFrom(st, lines))
    ensures Pending(ScanFrom(st, lines))
      == Pending(st) + NumberedCount(lines) + (if st.current == [] && HasPreamble(lines) then 1 else 0)
    ensures ScanFrom(st, lines).hasNumberPattern <==> st.hasNumberPattern || NumberedCount(lines) > 0
    decreases |lines|
  {
    if lines != [] {
      StepKeepsInv(st, lines[0]);
      StepCount(st, lines[0]);
      ScanCount(Step(st, lines[0]), lines[1..]);
    }
  }

  /** The entries of a finished scan are its non-empty normalised questions, and all of them survive the filter. */
  lemma FinishAllKept(st: Scan)
    requires Inv(st)
    ensures NonEmpty(Finish(st)) == Finish(st)
    ensures |Finish(st)| == Pending(st)
    ensures forall k | 0 <= k < |Finish(st)| :: Finish(st)[k] != "" && IsNormalized(Finish(st)[k])
  {
    if st.current != [] {
      FlushNonEmpty(st.current);
    }
  }

  /**
    With numbered lines, every numbered line opens an entry of its own and a non-blank preamble
    before the first of them is one more entry: nothing is dropped and nothing is merged.
   */
  lemma NumberedCountIsEntries(text: string)
    requires NumberedCount(Lines(text)) > 0
    ensures |SplitNumbered(text)| == NumberedCount(Lines(text)) + (if HasPreamble(Lines(text)) then 1 else 0)
  {
    var lines := Lines(text);
    ScanCount(Start, lines);
    FinishAllKept(ScanFrom(Start, lines));
  }

  /** The numbered lines, trimmed, in order: the lines that open the questions. */
  function NumberedLines(lines: seq<string>): (r: seq<string>)
    ensures |r| == NumberedCount(lines)
    ensures forall k | 0 <= k < |r| :: r[k] != "" && NoEdgeSpace(r[k]) && IsNumbered(r[k])
  {
    if lines == [] then []
    else (if NumberedLine(lines[0]) then [Trim(lines[0])] else []) + NumberedLines(lines[1..])
  }

  lemma ConcatSingle(s: string)
    ensures Concat([s]) == s
  {
    assert [s][1..] == [];
  }

  /** A numbered line, normalised, starts the question it opened. */
  ghost const Opens: (string, string) -> bool := (head: string, question: string) => Normalize(head) <= question

  /** Each of `heads` is related by `rel` to one of the last `|heads|` questions, in order. */
  ghost predicate StartsLast(questions: seq<string>, heads: seq<string>, rel: (string, string) -> bool) {
    |heads| <= |questions|
    && forall j | 0 <= j < |heads| :: rel(heads[j], questions[|questions| - |heads| + j])
  }

  lemma StartsLastExtend(questions: seq<string>, heads: seq<string>, rel: (string, string) -> bool, q: string, h: string)
    requires StartsLast(questions, heads, rel) && rel(h, q)
    ensures StartsLast(questions + [q], heads + [h], rel)
  {
    var qs, hs := questions + [q], heads + [h];
    forall j | 0 <= j < |hs|
      ensures rel(hs[j], qs[|qs| - |hs| + j])
    {
      if j < |heads| {
        assert hs[j] == heads[j] && qs[|qs| - |hs| + j] == questions[|questions| - |heads| + j];
      }
    }
  }

  /**
    How the state of the loop lines up with the numbered lines `nums` read so far: the open
    question starts with the last of them, which is trimmed and non-empty, and the finished
    questions before it start with the others, in order, at the end of the list.
   */
  ghost predicate Heads(st: Scan, nums: seq<string>) {
    nums != [] ==>
      var last := nums[|nums| - 1];
      last != "" && NoEdgeSpace(last) && st.current != [] && st.current[0] == last
      && StartsLast(st.questions, nums[..|nums| - 1], Opens)
  }

  /** The flushed question starts with its first line, normalised. */
  lemma FlushStartsWith(current: seq<string>)
    requires current != [] && current[0] != "" && NoEdgeSpace(current[0])
    ensures Normalize(current[0]) <= Flush(current)
  {
    var j := Join(current, " ");
    JoinStartsWith(current, " ");
    assert j == current[0] + j[|current[0]|..];
    NormalizeStartsWith(current[0], j[|current[0]|..]);
  }

  /** Closing the open question as `q` and opening the next at `line` keeps the heads lined up. */
  lemma OpenNext(st: Scan, nums: seq<string>, line: string, q: string)
    requires Heads(st, nums) && line != "" && NoEdgeSpace(line)
    requires nums != [] ==> Opens(nums[|nums| - 1], q)
    ensures Heads(Scan(st.questions + [q], [line], true), nums + [line])
  {
    var nums' := nums + [line];
    assert nums'[..|nums'| - 1] == nums;
    if nums != [] {
      var last := nums[|nums| - 1];
      StartsLastExtend(st.questions, nums[..|nums| - 1], Opens, q, last);
      assert nums[..|nums| - 1] + [last] == nums;
    } else {
      assert StartsLast(st.questions + [q], [], Opens);
    }
  }

  /** A numbered line closes the open question and opens the next. */
  lemma NumberedLineHeads(st: Scan, nums: seq<string>, line: string)
    requires Heads(st, nums) && line != "" && NoEdgeSpace(line) && st.current != []
    ensures Heads(Scan(st.questions + [Flush(st.current)], [line], true), nums + [line])
  {
    if nums != [] {
      FlushStartsWith(st.current);
      assert Opens(nums[|nums| - 1], Flush(st.current));
    }
    OpenNext(st, nums, line, Flush(st.current));
  }

  lemma StepHeads(st: Scan, nums: seq<string>, rawLine: string)
    requires Heads(st, nums)
    ensures Heads(Step(st, rawLine), nums + (if NumberedLine(rawLine) then [Trim(rawLine)] else []))
  {
    var line := Trim(rawLine);
    if line != "" && IsNumbered(line) {
      if st.current != [] {
        NumberedLineHeads(st, nums, line);
      } else {
        assert nums == [] && [line][..0] == [];
      }
    } else {
      assert nums + [] == nums;
    }
  }

  lemma {:induction false} ScanHeads(st: Scan, nums: seq<string>, lines: seq<string>)
    requires Heads(st, nums)
    ensures Heads(ScanFrom(st, lines), nums + NumberedLines(lines))
    decreases |lines|
  {
    if lines == [] {
      assert nums + [] == nums;
    } else {
      var added := if NumberedLine(lines[0]) then [Trim(lines[0])] else [];
      var st', nums' := Step(st, lines[0]), nums + added;
      StepHeads(st, nums, lines[0]);
      ScanHeads(st', nums', lines[1..]);
      assert ScanFrom(st, lines) == ScanFrom(st', lines[1..]);
      assert NumberedLines(lines) == added + NumberedLines(lines[1..]);
      AppendAssoc(nums, added, NumberedLines(lines[1..]));
    }
  }

  /**
    With numbered lines, the entries are an optional preamble entry followed by one entry per
    numbered line, in order, each starting with its numbered line (normalised) and taking in the
    lines up to the next one: nothing is dropped and nothing is merged.
   */
  lemma NumberedEntriesStart(text: string)
    requires NumberedCount(Lines(text)) > 0
    ensures var e, nums := SplitNumbered(text), NumberedLines(Lines(text));
      var p := if HasPreamble(Lines(text)) then 1 else 0;
      |e| == p + |nums| && forall j | 0 <= j < |nums| :: Normalize(nums[j]) <= e[p + j]
  {
    var lines := Lines(text);
    var nums := NumberedLines(lines);
    var fin := ScanFrom(Start, lines);
    var e := SplitNumbered(text);
    var p := if HasPreamble(lines) then 1 else 0;
    ScanCount(Start, lines);
    FinishAllKept(fin);
    assert e == Finish(fin);
    ScanHeads(Start, [], lines);
    assert [] + nums == nums;
    FinishHeads(fin, nums);
    StartsLastAt(e, nums, p);
  }

  lemma StartsLastAt(questions: seq<string>, heads: seq<string>, p: nat)
    requires StartsLast(questions, heads, Opens) && |questions| == p + |heads|
    ensures forall j | 0 <= j < |heads| :: Normalize(heads[j]) <= questions[p + j]
  {
  }

  /** At the end, every numbered line starts one of the last questions, in order. */
  lemma FinishHeads(st: Scan, nums: seq<string>)
    requires Heads(st, nums) && nums != []
    ensures StartsLast(Finish(st), nums, Opens)
  {
    var last := nums[|nums| - 1];
    FlushStartsWith(st.current);
    assert Opens(last, Flush(st.current));
    StartsLastExtend(st.questions, nums[..|nums| - 1], Opens, Flush(st.current), last);
    assert nums[..|nums| - 1] + [last] == nums;
  }

  /** The state's text so far: its finished questions and its open lines, whitespace left out. */
  function ScanText(st: Scan): string {
    NonSpace(Concat(st.questions)) + NonSpace(Concat(st.current))
  }

  lemma FlushKeepsText(current: seq<string>)
    ensures NonSpace(Flush(current)) == NonSpace(Concat(current))
  {
    JoinKeepsText(current, " ");
  }

  /** A line added to the open question adds its text. */
  lemma OpenLineKeepsText(st: Scan, line: string)
    ensures ScanText(st.(current := st.current + [line])) == ScanText(st) + NonSpace(line)
  {
    ConcatAppend(st.current, [line]);
    ConcatSingle(line);
    assert Concat(st.current + [line]) == Concat(st.current) + line;
    NonSpaceAppend(Concat(st.current), line);
    assert NonSpace(Concat(st.current + [line])) == NonSpace(Concat(st.current)) + NonSpace(line);
    AppendAssoc(NonSpace(Concat(st.questions)), NonSpace(Concat(st.current)), NonSpace(line));
  }

  /** A numbered line flushes the open question and opens the next, keeping the text. */
  lemma NewQuestionKeepsText(st: Scan, line: string)
    ensures ScanText(Scan(st.questions + [Flush(st.current)], [line], true)) == ScanText(st) + NonSpace(line)
  {
    var q, c := st.questions, st.current;
    ConcatSingle(line);
    ConcatAppend(q, [Flush(c)]);
    ConcatSingle(Flush(c));
    FlushKeepsText(c);
    NonSpaceAppend(Concat(q), Flush(c));
    AppendAssoc(NonSpace(Concat(q)), NonSpace(Concat(c)), NonSpace(line));
  }

  lemma StepKeepsText(st: Scan, rawLine: string)
    ensures ScanText(Step(st, rawLine)) == ScanText(st) + NonSpace(rawLine)
  {
    var line := Trim(rawLine);
    TrimKeepsText(rawLine);
    assert NonSpace(line) == NonSpace(rawLine);
    if line == "" {
      assert NonSpace(rawLine) == [];
      if st.current != [] {
        OpenLineKeepsText(st, "");
      }
    } else if IsNumbered(line) {
      if st.current != [] {
        NewQuestionKeepsText(st, line);
      } else {
        ConcatSingle(line);
        assert ScanText(st) == NonSpace(Concat(st.questions));
      }
    } else {
      OpenLineKeepsText(st, line);
    }
  }

  lemma {:induction false} ScanKeepsText(st: Scan, lines: seq<string>)
    ensures ScanText(ScanFrom(st, lines)) == ScanText(st) + NonSpace(Concat(lines))
    decreases |lines|
  {
    if lines != [] {
      StepKeepsText(st, lines[0]);
      ScanKeepsText(Step(st, lines[0]), lines[1..]);
      NonSpaceAppend(lines[0], Concat(lines[1..]));
      AppendAssoc(ScanText(st), NonSpace(lines[0]), NonSpace(Concat(lines[1..])));
    }
  }

  lemma FinishKeepsText(st: Scan)
    ensures NonSpace(Concat(Finish(st))) == ScanText(st)
  {
    if st.current != [] {
      ConcatAppend(st.questions, [Flush(st.current)]);
      ConcatSingle(Flush(st.current));
      FlushKeepsText(st.current);
      NonSpaceAppend(Concat(st.questions), Flush(st.current));
    } else {
      assert Concat(st.current) == "";
    }
  }

  lemma {:induction false} TrimAllKeepsText(lines: seq<string>)
    ensures NonSpace(Concat(TrimAll(lines))) == NonSpace(Concat(lines))
    decreases |lines|
  {
    if lines != [] {
      TrimAllKeepsText(lines[1..]);
      TrimKeepsText(lines[0]);
      assert TrimAll(lines)[1..] == TrimAll(lines[1..]);
      NonSpaceAppend(Trim(lines[0]), Concat(TrimAll(lines[1..])));
      NonSpaceAppend(lines[0], Concat(lines[1..]));
    }
  }

  /** The lines of a text spell, whitespace aside, the text itself. */
  lemma LinesKeepText(text: string)
    ensures NonSpace(Concat(Lines(text))) == NonSpace(text)
  {
    var n := NormalizeNewlines(text);
    JoinSplit(n, '\n');
    JoinKeepsText(Split(n, '\n'), "\n");
    NormalizeNewlinesKeepsText(text);
  }

  /**
    Whatever the layout, splitting loses no text: the entries hold, in order, exactly the
    characters of the text that are not whitespace.
   */
  lemma SegmentsKeepText(text: string)
    ensures NonSpace(Concat(SplitNumbered(text))) == NonSpace(text)
  {
    var lines := Lines(text);
    var fin := ScanFrom(Start, lines);
    LinesKeepText(text);
    if !fin.hasNumberPattern {
      NonEmptyConcat(TrimAll(lines));
      TrimAllKeepsText(lines);
    } else {
      NonEmptyConcat(Finish(fin));
      FinishKeepsText(fin);
      ScanKeepsText(Start, lines);
    }
  }

  /** With numbered lines, every entry is non-empty, has no whitespace at its ends and no whitespace runs. */
  lemma NumberedEntriesNormalized(text: string)
    requires NumberedCount(Lines(text)) > 0
    ensures forall k | 0 <= k < |SplitNumbered(text)| ::
      SplitNumbered(text)[k] != "" && IsNormalized(SplitNumbered(text)[k])
  {
    var lines := Lines(text);
    ScanCount(Start, lines);
    FinishAllKept(ScanFrom(Start, lines));
  }

  /** One numbered line with its continuation lines and no preamble is exactly one entry. */
  lemma SingleNumberedQuestion(text: string)
    requires NumberedCount(Lines(text)) == 1 && !HasPreamble(Lines(text))
    ensures |SplitNumbered(text)| == 1
  {
    NumberedCountIsEntries(text);
  }

  /** Without numbered lines the result is exactly the trimmed non-blank lines, in order. */
  lemma UnnumberedIsLines(text: string)
    requires NumberedCount(Lines(text)) == 0
    ensures SplitNumbered(text) == NonEmpty(TrimAll(Lines(text)))
    ensures forall k | 0 <= k < |SplitNumbered(text)| ::
      SplitNumbered(text)[k] != "" && NoEdgeSpace(SplitNumbered(text)[k])
  {
    ScanCount(Start, Lines(text));
    var r := NonEmpty(TrimAll(Lines(text)));
    forall k | 0 <= k < |r| ensures NoEdgeSpace(r[k]) {
      var j :| 0 <= j < |TrimAll(Lines(text))| && TrimAll(Lines(text))[j] == r[k];
    }
  }

  /** How many lines are not blank. */
  function NonBlankCount(lines: seq<string>): nat {
    if lines == [] then 0 else (if Trim(lines[0]) != "" then 1 else 0) + NonBlankCount(lines[1..])
  }

  lemma {:induction false} NonEmptyTrimCount(lines: seq<string>)
    ensures |NonEmpty(TrimAll(lines))| == NonBlankCount(lines)
    decreases |lines|
  {
    if lines != [] {
      NonEmptyTrimCount(lines[1..]);
      assert TrimAll(lines)[1..] == TrimAll(lines[1..]);
    }
  }

  /** Without numbered lines there is one entry per line that is not blank. */
  lemma UnnumberedLineCount(text: string)
    requires NumberedCount(Lines(text)) == 0
    ensures |SplitNumbered(text)| == NonBlankCount(Lines(text))
  {
    UnnumberedIsLines(text);
    NonEmptyTrimCount(Lines(text));
  }

  /** A string without a line feed is a single line. */
  lemma {:induction false} SplitWithoutSeparator(s: string, sep: char)
    requires sep !in s
    ensures Split(s, sep) == [s]
  {
    if s != [] {
      SplitWithoutSeparator(s[1..], sep);
      assert [s[0]] + s[1..] == s;
    }
  }

  /** A single numbered question written on one normalised line comes back unchanged as the only entry. */
  lemma OneLineQuestion(s: string)
    requires IsNormalized(s) && IsNumbered(s) && '\n' !in s && '\r' !in s
    ensures SplitNumbered(s) == [s]
  {
    SplitWithoutSeparator(s, '\n');
    assert Lines(s) == [s];
    assert Trim(s) == s;
    NormalizeIdentity(s);
    assert Join([s], " ") == s;
    assert ScanFrom(Start, [s]) == Scan([], [s], true);
  }
}
