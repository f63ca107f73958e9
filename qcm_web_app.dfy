/** The document side of qcm_web_app.py: `parse_csv`, `perform_stats`, the row
    loop of `generate_html_content` and `generate_answer_sheet`. Every
    function reads the rows csv.reader yields for the pasted text; the page
    markup around the structure is not modelled. */
module QcmWebApp {
  import opened AsciiText
  import opened QcmRows

  /** A parsed question, the dictionary `{'text', 'opts', 'ans', 'expl'}`. */
  datatype Question = Question(text: string, opts: seq<string>, ans: string, expl: string)

  /** The record parse_csv builds from one question row. */
  function ParseRecord(row: Row): (q: Question)
    requires |row| >= MinCells
  {
    Question(QuestionText(row), Options(row), NormalizeAnswer(AnswerCell(row)), Explanation(row))
  }

  /** One record per question row, in the rows' order. */
  function ParseAll(acc: seq<Row>): (qs: seq<Question>)
    requires AllQuestions(acc)
  {
    seq(|acc|, k requires 0 <= k < |acc| => ParseRecord(acc[k]))
  }

  /** The records parse_csv's loop holds after the first `n` rows of `body`. */
  function ParseAfter(body: seq<Row>, n: nat): (qs: seq<Question>)
    requires n <= |body|
    ensures |qs| == |KeepFirst(body, n)|
  {
    if n == 0 then []
    else if |body[n - 1]| >= MinCells then ParseAfter(body, n - 1) + [ParseRecord(body[n - 1])]
    else ParseAfter(body, n - 1)
  }

  /** The k-th record the loop holds after `n` rows is the parse of the k-th row kept so far. */
  lemma {:induction false} ParseAfterAt(body: seq<Row>, n: nat, k: nat)
    requires n <= |body| && k < |KeepFirst(body, n)|
    ensures ParseAfter(body, n)[k] == ParseRecord(KeepFirst(body, n)[k])
  {
    if !(|body[n - 1]| >= MinCells && k == |KeepFirst(body, n - 1)|) {
      ParseAfterAt(body, n - 1, k);
    }
  }

  /** After `n` rows the loop holds the records of the rows kept so far. */
  lemma ParseAfterSpec(body: seq<Row>, n: nat)
    requires n <= |body|
    ensures ParseAfter(body, n) == ParseAll(KeepFirst(body, n))
  {
    var kept, qs := KeepFirst(body, n), ParseAfter(body, n);
    forall k | 0 <= k < |kept| ensures qs[k] == ParseRecord(kept[k]) {
      ParseAfterAt(body, n, k);
    }
    assert qs == ParseAll(kept);
  }

  /** The body of parse_csv's loop for a question row: the record with the
      stripped text, options and explanation and the normalised answer. */
  method ParseRow(row: Row) returns (q: Question)
    requires |row| >= MinCells
    ensures q == ParseRecord(row)
  {
    var text, opts: seq<string>, ans, expl := Strip(row[0]), [], "", "";
    if |row| >= WideCells {
      opts := seq(6, k requires 0 <= k < 6 => Strip(row[k + 1]));
      ans, expl := NormalizeAnswer(row[7]), Strip(row[8]);
    } else {
      opts := seq(4, k requires 0 <= k < 4 => Strip(row[k + 1]));
      ans, expl := NormalizeAnswer(row[5]), Strip(row[6]);
    }
    assert opts == Options(row);
    q := Question(text, opts, ans, expl);
  }

  /** `parse_csv(text)` for the rows of `text`. */
  method ParseCsv(rows: seq<Row>) returns (data: seq<Question>)
    ensures data == ParseAll(AcceptedRows(rows))
  {
    var body := DropHeader(rows);
    data := [];
    for i := 0 to |body|
      invariant data == ParseAfter(body, i)
    {
      var row := body[i];
      if |row| < MinCells {
        continue;
      }
      var q := ParseRow(row);
      data := data + [q];
    }
    ParseAfterSpec(body, |body|);
    LoopKeepsAccepted(rows);
  }

  /** parse_csv drops the header and every row with fewer than 7 cells and
      keeps one record per remaining row, in input order; each record has 4
      or 6 options and an answer without spaces, commas or lower-case letters. */
  lemma ParsedRecordsShape(rows: seq<Row>)
    ensures var acc, qs := AcceptedRows(rows), ParseAll(AcceptedRows(rows));
      |qs| == |acc| &&
      (forall k :: 0 <= k < |qs| ==>
         qs[k] == ParseRecord(acc[k]) &&
         (|qs[k].opts| == 4 || |qs[k].opts| == 6) &&
         ' ' !in qs[k].ans && ',' !in qs[k].ans &&
         (forall m :: 0 <= m < |qs[k].ans| ==> !IsLower(qs[k].ans[m])))
  {
    var acc, qs := AcceptedRows(rows), ParseAll(AcceptedRows(rows));
    forall k | 0 <= k < |qs|
      ensures qs[k] == ParseRecord(acc[k]) &&
        (|qs[k].opts| == 4 || |qs[k].opts| == 6) &&
        ' ' !in qs[k].ans && ',' !in qs[k].ans &&
        (forall m :: 0 <= m < |qs[k].ans| ==> !IsLower(qs[k].ans[m]))
    {
      NormalizedAnswerShape(AnswerCell(acc[k]));
    }
  }

  lemma ParseAllConcat(x: seq<Row>, y: seq<Row>)
    requires AllQuestions(x) && AllQuestions(y)
    ensures AllQuestions(x + y)
    ensures ParseAll(x + y) == ParseAll(x) + ParseAll(y)
  {
    var z := x + y;
    forall k | 0 <= k < |z| ensures |z[k]| >= MinCells && (k < |x| ==> z[k] == x[k]) && (k >= |x| ==> z[k] == y[k - |x|]) {
      if k < |x| { assert z[k] == x[k]; } else { assert z[k] == y[k - |x|]; }
    }
  }

  /** Parsing keeps input order: the records of two stretches of rows are the
      records of the first stretch followed by those of the second. */
  lemma ParseKeepsOrder(a: seq<Row>, b: seq<Row>)
    ensures ParseAll(Keep(a + b)) == ParseAll(Keep(a)) + ParseAll(Keep(b))
  {
    KeepConcat(a, b);
    ParseAllConcat(Keep(a), Keep(b));
  }

  /** `perform_stats(text)` for the rows of `text`: the counts and the
      `Counter` of the collected letters (the percentages derived from it are
      not modelled). */
  method PerformStats(rows: seq<Row>) returns (stats: Stats, counts: map<char, nat>)
    ensures stats == StatsOf(AcceptedRows(rows))
    ensures counts == Tally(stats.letters)
  {
    var body := DropHeader(rows);
    var total: nat, single: nat, multi: nat, allAns: string := 0, 0, 0, [];
    for i := 0 to |body|
      invariant Stats(total, single, multi, allAns) == StatsOf(KeepFirst(body, i))
    {
      var row := body[i];
      if |row| < MinCells {
        continue;
      }
      StatsOfKeptStep(body, i + 1);
      total, single, multi, allAns := CountRow(total, single, multi, allAns, row);
    }
    LoopKeepsAccepted(rows);
    stats := Stats(total, single, multi, allAns);
    counts := Tally(allAns);
  }

  /** Number of records whose answer has more than one character. */
  function CountMulti(qs: seq<Question>): (n: nat)
    ensures n <= |qs|
  {
    if qs == [] then 0 else CountMulti(qs[..|qs| - 1]) + (if |qs[|qs| - 1].ans| > 1 then 1 else 0)
  }

  /** The A-F letters of all answers, in order. */
  function AnswerLetters(qs: seq<Question>): string {
    if qs == [] then [] else AnswerLetters(qs[..|qs| - 1]) + LetterFilter(qs[|qs| - 1].ans)
  }

  /** Counting normalised answers agrees with counting the records that carry them. */
  lemma {:induction false} AnswerStatsOfRecords(answers: seq<string>, qs: seq<Question>)
    requires |answers| == |qs| && forall k :: 0 <= k < |qs| ==> answers[k] == qs[k].ans
    ensures AnswerStats(answers).multi == CountMulti(qs)
    ensures AnswerStats(answers).letters == AnswerLetters(qs)
  {
    if qs != [] {
      AnswerStatsOfRecords(answers[..|answers| - 1], qs[..|qs| - 1]);
    }
  }

  /** The statistics normalise each answer cell as parse_csv does, so they
      count the parsed records' answers. */
  lemma StatsOfParsed(acc: seq<Row>)
    requires AllQuestions(acc)
    ensures StatsOf(acc).multi == CountMulti(ParseAll(acc))
    ensures StatsOf(acc).letters == AnswerLetters(ParseAll(acc))
  {
    var answers, qs := StatsAnswers(acc), ParseAll(acc);
    forall k | 0 <= k < |qs| ensures answers[k] == qs[k].ans {
      NormalisationOrdersAgree(AnswerCell(acc[k]));
    }
    AnswerStatsOfRecords(answers, qs);
  }

  /** The statistics agree with parse_csv on the same text: `total` is the
      number of parsed records and `total == single + multi`; `multi` counts
      the records whose normalised answer is longer than one character, so a
      record with an empty answer counts as single; the collected letters are
      the A-F letters of the parsed answers, and their per-letter counts add
      up to their number. */
  lemma StatsAgreeWithParse(rows: seq<Row>)
    ensures var st, qs := StatsOf(AcceptedRows(rows)), ParseAll(AcceptedRows(rows));
      st.total == |qs| && st.total == st.single + st.multi &&
      st.multi == CountMulti(qs) && st.single == |qs| - CountMulti(qs) &&
      st.letters == AnswerLetters(qs) &&
      (forall c :: c in st.letters ==> c in Letters) &&
      CountTotal(Tally(st.letters), Letters) == |st.letters|
  {
    var st := StatsOf(AcceptedRows(rows));
    StatsOfParsed(AcceptedRows(rows));
    AnswerStatsLetters(StatsAnswers(AcceptedRows(rows)));
    CountsSumToLength(st.letters);
  }

  /** A row of the answer sheet: the question number and its empty boxes. */
  datatype SheetRow = SheetRow(number: nat, boxes: nat)

  /** The sheet has a box for each of the letters A-F. */
  const BoxesPerRow: nat := 6

  /** `generate_answer_sheet(num_questions)`: rows numbered 1..n. */
  method GenerateAnswerSheet(numQuestions: nat) returns (sheet: seq<SheetRow>)
    ensures |sheet| == numQuestions
    ensures forall k :: 0 <= k < |sheet| ==> sheet[k].number == k + 1 && sheet[k].boxes == BoxesPerRow
  {
    sheet := [];
    for i := 1 to numQuestions + 1
      invariant |sheet| == i - 1
      invariant forall k :: 0 <= k < |sheet| ==> sheet[k] == SheetRow(k + 1, BoxesPerRow)
    {
      sheet := sheet + [SheetRow(i, BoxesPerRow)];
    }
  }

  /** The structure of the exam page: question blocks, answer sheet, correction table. */
  datatype ExamDocument = ExamDocument(blocks: seq<QuestionBlock>, sheet: seq<SheetRow>, corrections: seq<CorrectionRow>)

  /** The row loop of `generate_html_content` and the answer sheet it appends. */
  method GenerateHtmlContent(rows: seq<Row>) returns (doc: ExamDocument)
    ensures doc.blocks == ExamBlocks(AcceptedRows(rows))
    ensures doc.corrections == Corrections(AcceptedRows(rows))
    ensures |doc.sheet| == |doc.blocks|
    ensures forall k :: 0 <= k < |doc.sheet| ==>
      doc.sheet[k].number == doc.blocks[k].number == doc.corrections[k].number &&
      doc.sheet[k].boxes == BoxesPerRow
  {
    var body := DropHeader(rows);
    var blocks, corrections, qCount: nat := [], [], 0;
    for i := 0 to |body|
      invariant qCount == |blocks|
      invariant blocks == BlocksAfter(body, i)
      invariant corrections == CorrectionsAfter(body, i)
    {
      var row := body[i];
      if |row| < MinCells {
        continue;
      }
      qCount := qCount + 1;
      var block, correction := RenderQuestion(row, qCount);
      blocks := blocks + [block];
      corrections := corrections + [correction];
    }
    BlocksAfterSpec(body, |body|);
    CorrectionsAfterSpec(body, |body|);
    LoopKeepsAccepted(rows);
    var sheet := GenerateAnswerSheet(qCount);
    doc := ExamDocument(blocks, sheet, corrections);
  }

  /** The correction table prints the answer cell only stripped; normalising
      what it prints gives back exactly the answer parse_csv grades against. */
  lemma CorrectionNormalisesToParsed(row: Row, number: nat)
    requires |row| >= MinCells
    ensures NormalizeAnswer(CorrectionOf(row, number).answer) == ParseRecord(row).ans
  {
    StripIdempotent(AnswerCell(row));
  }
}
