/** csv_2_html.py's `QCMGeneratorApp.calculate_stats` and the row loop of
    `QCMGeneratorApp.generate_html`. They repeat the row rules of
    qcm_web_app.py with their own loops; both are proved against the same
    specification functions. */
module Csv2Html {
  import opened QcmRows
  import opened QcmWebApp

  /** `calculate_stats(csv_text)`: the counts and the `Counter` of the
      collected letters (the percentages are not modelled). */
  method CalculateStats(rows: seq<Row>) returns (stats: Stats, counts: map<char, nat>)
    ensures stats == StatsOf(AcceptedRows(rows))
    ensures counts == Tally(stats.letters)
  {
    var body := DropHeader(rows);
    var total: nat, single: nat, multi: nat, letters: string := 0, 0, 0, [];
    for i := 0 to |body|
      invariant Stats(total, single, multi, letters) == StatsOf(KeepFirst(body, i))
    {
      var row := body[i];
      if |row| < MinCells {
        continue;
      }
      StatsOfKeptStep(body, i + 1);
      total, single, multi, letters := CountRow(total, single, multi, letters, row);
    }
    LoopKeepsAccepted(rows);
    stats := Stats(total, single, multi, letters);
    counts := Tally(letters);
  }

  /** The structure of the classic page: question blocks and the answer table. */
  datatype ClassicDocument = ClassicDocument(blocks: seq<QuestionBlock>, answerRows: seq<CorrectionRow>)

  /** The row loop of `generate_html(csv_text, title, use_cols)`. Unlike
      qcm_web_app.py it numbers from `q_num = 1` and increments after each
      question. */
  method GenerateHtml(rows: seq<Row>) returns (doc: ClassicDocument)
    ensures doc.blocks == ExamBlocks(AcceptedRows(rows))
    ensures doc.answerRows == Corrections(AcceptedRows(rows))
  {
    var body := DropHeader(rows);
    var blocks, ansRows, qNum: nat := [], [], 1;
    for i := 0 to |body|
      invariant qNum == |blocks| + 1
      invariant blocks == BlocksAfter(body, i)
      invariant ansRows == CorrectionsAfter(body, i)
    {
      var row := body[i];
      if |row| < MinCells {
        continue;
      }
      var block, correction := RenderQuestion(row, qNum);
      blocks := blocks + [block];
      ansRows := ansRows + [correction];
      qNum := qNum + 1;
    }
    BlocksAfterSpec(body, |body|);
    CorrectionsAfterSpec(body, |body|);
    LoopKeepsAccepted(rows);
    doc := ClassicDocument(blocks, ansRows);
  }

  /** The answer table has one row per question counted by calculate_stats,
      and as many as parse_csv has records. (That the classic page's blocks
      and answer rows are those of qcm_web_app.py's exam page is the shared
      `ExamBlocks`/`Corrections` ensures of `GenerateHtml` and
      `GenerateHtmlContent`.) */
  lemma AnswerRowsMatchTotal(rows: seq<Row>)
    ensures |Corrections(AcceptedRows(rows))| == StatsOf(AcceptedRows(rows)).total
    ensures |Corrections(AcceptedRows(rows))| == |ParseAll(AcceptedRows(rows))|
  {
  }

  /** A skipped row advances no number: removing a row with fewer than 7
      cells from anywhere after the header leaves every block and answer row
      as it was. */
  lemma SkippedRowChangesNothing(a: seq<Row>, r: Row, b: seq<Row>)
    requires |r| < MinCells
    ensures Keep(a + [r] + b) == Keep(a + b)
    ensures ExamBlocks(Keep(a + [r] + b)) == ExamBlocks(Keep(a + b))
    ensures Corrections(Keep(a + [r] + b)) == Corrections(Keep(a + b))
  {
    KeepConcat(a + [r], b);
    KeepSnoc(a, r);
    KeepConcat(a, b);
  }
}
