/** What qcm_web_app.py and csv_2_html.py both do with the
    rows that csv.reader yields for pipe-delimited quiz text: which rows are
    questions, where a row keeps its options, answer and explanation, how an
    answer is normalised, what the statistics count, and what each question
    contributes to a printed exam. */
module QcmRows {
  import opened AsciiText

  /** One line of input after splitting on '|': its cells, in order. */
  type Row = seq<string>

  /** A row with fewer cells is not a question. */
  const MinCells: nat := 7
  /** A row with at least this many cells has six options, otherwise four. */
  const WideCells: nat := 9
  /** The option letters, by position. */
  const Letters: string := "ABCDEF"

  predicate AllQuestions(acc: seq<Row>) {
    forall k :: 0 <= k < |acc| ==> |acc[k]| >= MinCells
  }

  /** `next(reader, None)`: the first row is a header and never a question. */
  function DropHeader(rows: seq<Row>): seq<Row> {
    if rows == [] then [] else rows[1..]
  }

  /** `if len(row) < 7: continue`, applied to every row in turn. */
  function Keep(rs: seq<Row>): (kept: seq<Row>)
    ensures |kept| <= |rs|
    ensures AllQuestions(kept)
  {
    if rs == [] then []
    else Keep(rs[..|rs| - 1]) + (if |rs[|rs| - 1]| >= MinCells then [rs[|rs| - 1]] else [])
  }

  lemma KeepSnoc(rs: seq<Row>, r: Row)
    ensures Keep(rs + [r]) == Keep(rs) + (if |r| >= MinCells then [r] else [])
  {
    assert (rs + [r])[..|rs|] == rs;
  }

  /** The rows kept among the first `n` of `rs`, as a row loop has them after `n` steps. */
  function KeepFirst(rs: seq<Row>, n: nat): (kept: seq<Row>)
    requires n <= |rs|
    ensures AllQuestions(kept)
  {
    if n == 0 then []
    else if |rs[n - 1]| >= MinCells then KeepFirst(rs, n - 1) + [rs[n - 1]]
    else KeepFirst(rs, n - 1)
  }

  lemma {:induction false} KeepFirstIsKeep(rs: seq<Row>, n: nat)
    requires n <= |rs|
    ensures KeepFirst(rs, n) == Keep(rs[..n])
  {
    if n > 0 {
      KeepFirstIsKeep(rs, n - 1);
      assert rs[..n] == rs[..n - 1] + [rs[n - 1]];
      KeepSnoc(rs[..n - 1], rs[n - 1]);
      if |rs[n - 1]| < MinCells {
        assert Keep(rs[..n - 1]) + [] == Keep(rs[..n - 1]);
      }
    }
  }

  /** After the last step a row loop holds exactly the accepted rows. */
  lemma LoopKeepsAccepted(rows: seq<Row>)
    ensures KeepFirst(DropHeader(rows), |DropHeader(rows)|) == AcceptedRows(rows)
  {
    var body := DropHeader(rows);
    KeepFirstIsKeep(body, |body|);
    assert body[..|body|] == body;
  }

  /** A row survives exactly when it is present and has at least 7 cells. */
  lemma {:induction false} KeepMembership(rs: seq<Row>, r: Row)
    ensures r in Keep(rs) <==> r in rs && |r| >= MinCells
  {
    if rs != [] {
      var init, last := rs[..|rs| - 1], rs[|rs| - 1];
      assert rs == init + [last];
      KeepMembership(init, r);
    }
  }

  /** Filtering keeps input order: the rows kept from a concatenation are the
      rows kept from its first part followed by those kept from its second. */
  lemma {:induction false} KeepConcat(a: seq<Row>, b: seq<Row>)
    ensures Keep(a + b) == Keep(a) + Keep(b)
  {
    if b == [] {
      assert a + b == a;
    } else {
      var init, last := b[..|b| - 1], b[|b| - 1];
      assert b == init + [last];
      assert a + b == (a + init) + [last];
      KeepConcat(a, init);
      KeepSnoc(a + init, last);
      KeepSnoc(init, last);
    }
  }

  /** The rows every generator treats as questions. */
  function AcceptedRows(rows: seq<Row>): (acc: seq<Row>)
    ensures AllQuestions(acc)
    ensures |acc| < |rows| || rows == []
  {
    Keep(DropHeader(rows))
  }

  /** A row is a question exactly when it is not the header and has at least
      7 cells. */
  lemma AcceptedRowsMembership(rows: seq<Row>, r: Row)
    ensures r in AcceptedRows(rows) <==> r in DropHeader(rows) && |r| >= MinCells
  {
    KeepMembership(DropHeader(rows), r);
  }

  /** `if len(row) >= 9:` six options, `else:` four. */
  function OptionCount(row: Row): (n: nat)
    requires |row| >= MinCells
    ensures n + 3 <= |row|
    ensures n == 6 <==> |row| >= WideCells
    ensures n == 4 <==> |row| < WideCells
  {
    if |row| >= WideCells then 6 else 4
  }

  /** `row[0].strip()`: the question text. */
  function QuestionText(row: Row): string
    requires |row| >= MinCells
  {
    Strip(row[0])
  }

  /** `[row[i].strip() for i in range(1, 7)]`, or `range(1, 5)` for a short row. */
  function Options(row: Row): (opts: seq<string>)
    requires |row| >= MinCells
    ensures |opts| == OptionCount(row)
  {
    seq(OptionCount(row), k requires 0 <= k < OptionCount(row) => Strip(row[k + 1]))
  }

  /** The answer cell, as read before any normalisation: the cell right after the options. */
  function AnswerCell(row: Row): string
    requires |row| >= MinCells
  {
    row[OptionCount(row) + 1]
  }

  /** The stripped cell right after the answer cell. */
  function Explanation(row: Row): string
    requires |row| >= MinCells
  {
    Strip(row[OptionCount(row) + 2])
  }

  /** Six options in cells 1-6, the answer in cell 7 and the explanation in
      cell 8 exactly when the row has at least 9 cells; otherwise four
      options in cells 1-4, the answer in cell 5 and the explanation in cell 6. */
  lemma LayoutRule(row: Row)
    requires |row| >= MinCells
    ensures |row| >= WideCells ==>
      |Options(row)| == 6 && AnswerCell(row) == row[7] && Explanation(row) == Strip(row[8])
    ensures |row| < WideCells ==>
      |Options(row)| == 4 && AnswerCell(row) == row[5] && Explanation(row) == Strip(row[6])
    ensures forall k :: 0 <= k < |Options(row)| ==> Options(row)[k] == Strip(row[k + 1])
  {
  }

  /** Cells after the explanation are never read: a row lays out exactly as
      its first 9 cells (six options) or its first 7 cells (four options). */
  lemma LaterCellsIgnored(row: Row)
    requires |row| >= MinCells
    ensures var short := row[..OptionCount(row) + 3];
      QuestionText(short) == QuestionText(row) && Options(short) == Options(row) &&
      AnswerCell(short) == AnswerCell(row) && Explanation(short) == Explanation(row)
  {
    var short := row[..OptionCount(row) + 3];
    assert OptionCount(short) == OptionCount(row);
    assert Options(short) == Options(row);
  }

  /** parse_csv's normalisation of the answer cell:
      `.strip().replace(' ', '').replace(',', '').upper()`. */
  function NormalizeAnswer(cell: string): string {
    Upper(Remove(Remove(Strip(cell), ' '), ','))
  }

  /** A normalised answer holds no space, no comma and no lower-case letter. */
  lemma NormalizedAnswerShape(cell: string)
    ensures var ans := NormalizeAnswer(cell);
      ' ' !in ans && ',' !in ans && forall k :: 0 <= k < |ans| ==> !IsLower(ans[k])
  {
    var s := Remove(Strip(cell), ' ');
    var t := Remove(s, ',');
    RemoveSpec(Strip(cell), ' ');
    RemoveSpec(s, ',');
    UpperKeepsCaseless(t, ' ');
    UpperKeepsCaseless(t, ',');
    UpperSpec(t);
  }

  /** The statistics' normalisation of the answer cell, in their own order:
      `.strip().upper().replace(',', '').replace(' ', '')`. */
  function StatsAnswer(cell: string): string {
    Remove(Remove(Upper(Strip(cell)), ','), ' ')
  }

  /** Both orders of normalisation give the same answer string. */
  lemma NormalisationOrdersAgree(cell: string)
    ensures StatsAnswer(cell) == NormalizeAnswer(cell)
  {
    var t := Strip(cell);
    UpperRemoveCommute(Remove(t, ' '), ',');
    UpperRemoveCommute(t, ' ');
    RemoveCommutes(Upper(t), ' ', ',');
  }

  /** Normalising a normalised answer changes nothing, provided the answer
      does not start or end with whitespace other than a space. */
  lemma NormalizeIdempotent(cell: string)
    requires var a := NormalizeAnswer(cell); a != [] ==> !IsSpace(a[0]) && !IsSpace(a[|a| - 1])
    ensures NormalizeAnswer(NormalizeAnswer(cell)) == NormalizeAnswer(cell)
  {
    var a := NormalizeAnswer(cell);
    NormalizedAnswerShape(cell);
    StripUnchanged(a);
    RemoveSpec(a, ' ');
    RemoveSpec(a, ',');
    UpperUnchanged(a);
  }

  /** Without that proviso normalisation is not idempotent: removing a comma
      can uncover a tab that the first strip could not reach. */
  lemma NormalizeNotIdempotent()
    ensures NormalizeAnswer(",\tA") == "\tA"
    ensures NormalizeAnswer("\tA") == "A"
  {
  }

  /** The letters A-F of `s`, in order (`if char in 'ABCDEF'`). */
  function LetterFilter(s: string): (r: string)
    ensures |r| <= |s|
  {
    if s == [] then []
    else LetterFilter(s[..|s| - 1]) + (if s[|s| - 1] in Letters then [s[|s| - 1]] else [])
  }

  /** The filter keeps exactly the A-F letters of `s`. */
  lemma {:induction false} LetterFilterSpec(s: string)
    ensures forall c :: c in LetterFilter(s) <==> c in s && c in Letters
  {
    if s != [] {
      var init, last := s[..|s| - 1], s[|s| - 1];
      assert s == init + [last];
      LetterFilterSpec(init);
    }
  }

  lemma LetterFilterSnoc(s: string, c: char)
    ensures LetterFilter(s + [c]) == LetterFilter(s) + (if c in Letters then [c] else [])
  {
    assert (s + [c])[..|s|] == s;
  }

  /** `for char in ans: if char in 'ABCDEF':` append `char` (`all_ans` in
      qcm_web_app.py, `letters` in csv_2_html.py) */
  method CollectLetters(allAns: string, ans: string) returns (collected: string)
    ensures collected == allAns + LetterFilter(ans)
  {
    collected := allAns;
    for j := 0 to |ans|
      invariant collected == allAns + LetterFilter(ans[..j])
    {
      assert ans[..j + 1] == ans[..j] + [ans[j]];
      LetterFilterSnoc(ans[..j], ans[j]);
      if ans[j] in Letters {
        collected := collected + [ans[j]];
      }
    }
    assert ans[..|ans|] == ans;
  }

  /** The answer statistics: question count, single- and multi-answer
      counts, and every A-F letter of every answer, in input order. */
  datatype Stats = Stats(total: nat, single: nat, multi: nat, letters: string)

  /** What one normalised answer adds to the statistics. */
  function CountAnswer(st: Stats, ans: string): Stats {
    if |ans| > 1 then Stats(st.total + 1, st.single, st.multi + 1, st.letters + LetterFilter(ans))
    else Stats(st.total + 1, st.single + 1, st.multi, st.letters + LetterFilter(ans))
  }

  /** What one question row adds to the statistics. */
  function StatsStep(st: Stats, row: Row): Stats
    requires |row| >= MinCells
  {
    CountAnswer(st, StatsAnswer(AnswerCell(row)))
  }

  /** The statistics of a sequence of normalised answers, counted in order. */
  function AnswerStats(answers: seq<string>): (st: Stats)
    ensures st.total == |answers| == st.single + st.multi
  {
    if answers == [] then Stats(0, 0, 0, [])
    else CountAnswer(AnswerStats(answers[..|answers| - 1]), answers[|answers| - 1])
  }

  /** The answers of a sequence of question rows, as the statistics normalise them. */
  function StatsAnswers(acc: seq<Row>): (answers: seq<string>)
    requires AllQuestions(acc)
  {
    seq(|acc|, k requires 0 <= k < |acc| => StatsAnswer(AnswerCell(acc[k])))
  }

  /** The statistics of a sequence of question rows. */
  function StatsOf(acc: seq<Row>): (st: Stats)
    requires AllQuestions(acc)
    ensures st.total == |acc| == st.single + st.multi
  {
    AnswerStats(StatsAnswers(acc))
  }

  /** The collected letters are all option letters A-F. */
  lemma {:induction false} AnswerStatsLetters(answers: seq<string>)
    ensures forall c :: c in AnswerStats(answers).letters ==> c in Letters
  {
    if answers != [] {
      AnswerStatsLetters(answers[..|answers| - 1]);
      LetterFilterSpec(answers[|answers| - 1]);
    }
  }

  /** A question row adds its step to the statistics of the rows kept before it. */
  lemma StatsOfKeptStep(body: seq<Row>, n: nat)
    requires 0 < n <= |body| && |body[n - 1]| >= MinCells
    ensures StatsOf(KeepFirst(body, n)) == StatsStep(StatsOf(KeepFirst(body, n - 1)), body[n - 1])
  {
    var kept, before := KeepFirst(body, n), KeepFirst(body, n - 1);
    var a := StatsAnswers(kept);
    forall k | 0 <= k < |before| ensures a[k] == StatsAnswers(before)[k] {
      assert kept[k] == before[k];
    }
    assert a[..|a| - 1] == StatsAnswers(before);
  }

  /** The body of both statistics loops for a question row: count it,
      normalise the answer cell (`.strip().upper().replace(',', '').replace(' ', '')`),
      count the answer as multiple when it has more than one character and as
      single otherwise, and collect its A-F letters. */
  method CountRow(total: nat, single: nat, multi: nat, letters: string, row: Row)
    returns (total': nat, single': nat, multi': nat, letters': string)
    requires |row| >= MinCells
    ensures Stats(total', single', multi', letters') == StatsStep(Stats(total, single, multi, letters), row)
  {
    total', single', multi' := total + 1, single, multi;
    var cell := if |row| >= WideCells then row[7] else row[5];
    assert cell == AnswerCell(row);
    var ans := StatsAnswer(cell);
    if |ans| > 1 {
      multi' := multi + 1;
    } else {
      single' := single + 1;
    }
    letters' := CollectLetters(letters, ans);
  }

  /** `Counter(letters)`: each letter that occurs, with its number of occurrences. */
  function Tally(letters: string): map<char, nat> {
    map c | c in letters :: multiset(letters)[c]
  }

  /** The count of `c` in a tally, zero for an absent letter. */
  function CountOf(counts: map<char, nat>, c: char): nat {
    if c in counts then counts[c] else 0
  }

  /** The counts of the letters of `alphabet`, added up. */
  function CountTotal(counts: map<char, nat>, alphabet: string): nat {
    if alphabet == [] then 0 else CountOf(counts, alphabet[0]) + CountTotal(counts, alphabet[1..])
  }

  function MultisetTotal(m: multiset<char>, alphabet: string): nat {
    if alphabet == [] then 0 else m[alphabet[0]] + MultisetTotal(m, alphabet[1..])
  }

  predicate Distinct(s: string) {
    forall i, j :: 0 <= i < j < |s| ==> s[i] != s[j]
  }

  lemma {:induction false} MultisetTotalAdd(m: multiset<char>, x: char, alphabet: string)
    requires Distinct(alphabet)
    ensures MultisetTotal(m + multiset{x}, alphabet) == MultisetTotal(m, alphabet) + (if x in alphabet then 1 else 0)
  {
    if alphabet != [] {
      assert Distinct(alphabet[1..]) by {
        forall i, j | 0 <= i < j < |alphabet| - 1 ensures alphabet[1..][i] != alphabet[1..][j] {
          assert alphabet[1..][i] == alphabet[i + 1] && alphabet[1..][j] == alphabet[j + 1];
        }
      }
      MultisetTotalAdd(m, x, alphabet[1..]);
      assert x in alphabet <==> x == alphabet[0] || x in alphabet[1..];
      if x == alphabet[0] {
        assert x !in alphabet[1..] by {
          forall j | 0 <= j < |alphabet| - 1 ensures alphabet[1..][j] != x {
            assert alphabet[1..][j] == alphabet[j + 1];
          }
        }
      }
    }
  }

  lemma {:induction false} MultisetTotalOfLetters(letters: string)
    requires forall c :: c in letters ==> c in Letters
    ensures MultisetTotal(multiset(letters), Letters) == |letters|
  {
    if letters == [] {
      assert MultisetTotal(multiset{}, Letters) == 0;
    } else {
      var init, last := letters[..|letters| - 1], letters[|letters| - 1];
      assert letters == init + [last];
      assert forall c :: c in init ==> c in letters;
      MultisetTotalOfLetters(init);
      assert Distinct(Letters);
      MultisetTotalAdd(multiset(init), last, Letters);
      assert multiset(letters) == multiset(init) + multiset{last};
    }
  }

  lemma {:induction false} CountTotalIsMultisetTotal(letters: string, alphabet: string)
    ensures CountTotal(Tally(letters), alphabet) == MultisetTotal(multiset(letters), alphabet)
  {
    if alphabet != [] {
      CountTotalIsMultisetTotal(letters, alphabet[1..]);
      var c := alphabet[0];
      assert CountOf(Tally(letters), c) == multiset(letters)[c];
    }
  }

  /** The per-letter counts of the collected letters add up to their number. */
  lemma CountsSumToLength(letters: string)
    requires forall c :: c in letters ==> c in Letters
    ensures CountTotal(Tally(letters), Letters) == |letters|
  {
    CountTotalIsMultisetTotal(letters, Letters);
    MultisetTotalOfLetters(letters);
  }

  /** An option as printed: its positional letter and its text. */
  datatype LetteredOption = LetteredOption(letter: char, text: string)

  /** A question as printed: its number, its text and its non-empty options. */
  datatype QuestionBlock = QuestionBlock(number: nat, text: string, options: seq<LetteredOption>)

  /** A row of the correction table: number, answer cell (stripped only) and explanation. */
  datatype CorrectionRow = CorrectionRow(number: nat, answer: string, explanation: string)

  /** Position of an option letter in "ABCDEF". */
  function LetterIndex(c: char): int {
    c as int - 'A' as int
  }

  lemma LetterCodes()
    ensures forall i :: 0 <= i < |Letters| ==> LetterIndex(Letters[i]) == i
  {
    assert Letters == ['A', 'B', 'C', 'D', 'E', 'F'];
  }

  /** The inner loop of both generators over the first `n` options:
      `if opt:` emit `lets[i]` with the option text. */
  function Emitted(opts: seq<string>, n: nat): (e: seq<LetteredOption>)
    requires n <= |opts| <= |Letters|
    ensures |e| <= n
  {
    if n == 0 then []
    else if opts[n - 1] != "" then Emitted(opts, n - 1) + [LetteredOption(Letters[n - 1], opts[n - 1])]
    else Emitted(opts, n - 1)
  }

  /** `o` is the non-empty option among the first `n` at its letter's position. */
  predicate ShowsOption(opts: seq<string>, n: nat, o: LetteredOption) {
    var j := LetterIndex(o.letter);
    0 <= j < n <= |opts| && n <= |Letters| && o == LetteredOption(Letters[j], opts[j]) && opts[j] != ""
  }

  /** Every emitted option is the non-empty option at its letter's position. */
  lemma {:induction false} EmittedFromOptions(opts: seq<string>, n: nat)
    requires n <= |opts| <= |Letters|
    ensures forall m :: 0 <= m < |Emitted(opts, n)| ==> ShowsOption(opts, n, Emitted(opts, n)[m])
  {
    if n > 0 {
      EmittedFromOptions(opts, n - 1);
      LetterCodes();
      var prev, e := Emitted(opts, n - 1), Emitted(opts, n);
      forall m | 0 <= m < |e| ensures ShowsOption(opts, n, e[m]) {
        if m < |prev| {
          assert e[m] == prev[m];
          assert ShowsOption(opts, n - 1, prev[m]);
        } else {
          assert opts[n - 1] != "" && e[m] == LetteredOption(Letters[n - 1], opts[n - 1]);
          assert LetterIndex(e[m].letter) == n - 1;
        }
      }
    }
  }

  /** The emitted letters strictly ascend. */
  lemma {:induction false} EmittedAscending(opts: seq<string>, n: nat)
    requires n <= |opts| <= |Letters|
    ensures forall m, m' :: 0 <= m < m' < |Emitted(opts, n)| ==>
      LetterIndex(Emitted(opts, n)[m].letter) < LetterIndex(Emitted(opts, n)[m'].letter)
  {
    if n > 0 {
      EmittedAscending(opts, n - 1);
      EmittedFromOptions(opts, n - 1);
      LetterCodes();
      var prev, e := Emitted(opts, n - 1), Emitted(opts, n);
      forall m, m' | 0 <= m < m' < |e|
        ensures LetterIndex(e[m].letter) < LetterIndex(e[m'].letter)
      {
        assert e[m] == prev[m];
        if m' < |prev| {
          assert e[m'] == prev[m'];
          assert LetterIndex(prev[m].letter) < LetterIndex(prev[m'].letter);
        } else {
          assert ShowsOption(opts, n - 1, prev[m]);
          assert e[m'].letter == Letters[n - 1];
          assert LetterIndex(e[m'].letter) == n - 1;
        }
      }
    }
  }

  /** A non-empty option is emitted under its own letter, an empty one is not. */
  lemma {:induction false} EmittedComplete(opts: seq<string>, n: nat)
    requires n <= |opts| <= |Letters|
    ensures forall i :: 0 <= i < n ==> (opts[i] != "" <==> LetteredOption(Letters[i], opts[i]) in Emitted(opts, n))
  {
    if n > 0 {
      EmittedComplete(opts, n - 1);
      EmittedFromOptions(opts, n - 1);
      LetterCodes();
      var prev, e := Emitted(opts, n - 1), Emitted(opts, n);
      var last := LetteredOption(Letters[n - 1], opts[n - 1]);
      assert last !in prev;
      forall i | 0 <= i < n ensures opts[i] != "" <==> LetteredOption(Letters[i], opts[i]) in e {
        var o := LetteredOption(Letters[i], opts[i]);
        assert o in e <==> o in prev || (opts[n - 1] != "" && o == last);
        if i < n - 1 {
          assert LetterIndex(o.letter) != LetterIndex(last.letter);
        }
      }
    }
  }

  /** Empty options are left out and the others keep their positional
      letter: every emitted option is the non-empty option at its letter's
      position, every non-empty option is emitted, and letters ascend. */
  lemma EmittedKeepsPositions(opts: seq<string>, n: nat)
    requires n <= |opts| <= |Letters|
    ensures var e := Emitted(opts, n);
      (forall m :: 0 <= m < |e| ==>
         0 <= LetterIndex(e[m].letter) < n && e[m].letter == Letters[LetterIndex(e[m].letter)] &&
         e[m].text == opts[LetterIndex(e[m].letter)] && e[m].text != "") &&
      (forall i :: 0 <= i < n ==> (opts[i] != "" <==> LetteredOption(Letters[i], opts[i]) in e)) &&
      (forall m, m' :: 0 <= m < m' < |e| ==> e[m].letter < e[m'].letter)
  {
    EmittedFromOptions(opts, n);
    EmittedAscending(opts, n);
    EmittedComplete(opts, n);
  }

  /** The printed question for a row, given its number. */
  function BlockOf(row: Row, number: nat): (block: QuestionBlock)
    requires |row| >= MinCells
  {
    QuestionBlock(number, QuestionText(row), Emitted(Options(row), OptionCount(row)))
  }

  /** The correction-table row for a row, given its number. */
  function CorrectionOf(row: Row, number: nat): (correction: CorrectionRow)
    requires |row| >= MinCells
  {
    CorrectionRow(number, Strip(AnswerCell(row)), Explanation(row))
  }

  /** `for i, opt in enumerate(opts): if opt:` emit `<li data-letter="{lets[i]}">`. */
  method EmitOptions(opts: seq<string>, lets: string) returns (options: seq<LetteredOption>)
    requires |opts| <= |Letters| && lets == Letters[..|opts|]
    ensures options == Emitted(opts, |opts|)
  {
    options := [];
    for j := 0 to |opts|
      invariant options == Emitted(opts, j)
    {
      if opts[j] != "" {
        options := options + [LetteredOption(lets[j], opts[j])];
      }
    }
  }

  /** The body of both generators' row loop for a question row: the
      question block with its non-empty options under their letters, and the
      correction-table row with the stripped answer and explanation. */
  method RenderQuestion(row: Row, number: nat) returns (block: QuestionBlock, correction: CorrectionRow)
    requires |row| >= MinCells
    ensures block == BlockOf(row, number)
    ensures correction == CorrectionOf(row, number)
  {
    var qText := Strip(row[0]);
    var opts: seq<string>, ans, expl, lets;
    if |row| >= WideCells {
      opts := seq(6, k requires 0 <= k < 6 => Strip(row[k + 1]));
      ans, expl, lets := Strip(row[7]), Strip(row[8]), Letters[..6];
    } else {
      opts := seq(4, k requires 0 <= k < 4 => Strip(row[k + 1]));
      ans, expl, lets := Strip(row[5]), Strip(row[6]), Letters[..4];
    }
    assert opts == Options(row);
    var options := EmitOptions(opts, lets);
    block := QuestionBlock(number, qText, options);
    correction := CorrectionRow(number, ans, expl);
  }

  /** The question blocks of a sequence of question rows: the k-th comes
      from the k-th row and carries number k + 1. */
  function ExamBlocks(acc: seq<Row>): (blocks: seq<QuestionBlock>)
    requires AllQuestions(acc)
  {
    seq(|acc|, k requires 0 <= k < |acc| => BlockOf(acc[k], k + 1))
  }

  /** The correction rows of a sequence of question rows: the k-th comes
      from the k-th row and carries number k + 1. */
  function Corrections(acc: seq<Row>): (rows: seq<CorrectionRow>)
    requires AllQuestions(acc)
  {
    seq(|acc|, k requires 0 <= k < |acc| => CorrectionOf(acc[k], k + 1))
  }

  /** The question blocks a generator's row loop holds after the first `n`
      rows of `body`: each question row adds its block, numbered after the
      blocks before it. */
  function BlocksAfter(body: seq<Row>, n: nat): (blocks: seq<QuestionBlock>)
    requires n <= |body|
    ensures |blocks| == |KeepFirst(body, n)|
  {
    if n == 0 then []
    else if |body[n - 1]| >= MinCells then BlocksAfter(body, n - 1) + [BlockOf(body[n - 1], |BlocksAfter(body, n - 1)| + 1)]
    else BlocksAfter(body, n - 1)
  }

  /** The correction rows a generator's row loop holds after the first `n` rows of `body`. */
  function CorrectionsAfter(body: seq<Row>, n: nat): (rows: seq<CorrectionRow>)
    requires n <= |body|
    ensures |rows| == |KeepFirst(body, n)|
  {
    if n == 0 then []
    else if |body[n - 1]| >= MinCells then CorrectionsAfter(body, n - 1) + [CorrectionOf(body[n - 1], |CorrectionsAfter(body, n - 1)| + 1)]
    else CorrectionsAfter(body, n - 1)
  }

  /** The k-th block the loop holds after `n` rows is that of the k-th row
      kept so far, numbered k + 1. */
  lemma {:induction false} BlocksAfterAt(body: seq<Row>, n: nat, k: nat)
    requires n <= |body| && k < |KeepFirst(body, n)|
    ensures BlocksAfter(body, n)[k] == BlockOf(KeepFirst(body, n)[k], k + 1)
  {
    if !(|body[n - 1]| >= MinCells && k == |KeepFirst(body, n - 1)|) {
      BlocksAfterAt(body, n - 1, k);
    }
  }

  /** The k-th correction row the loop holds after `n` rows is that of the
      k-th row kept so far, numbered k + 1. */
  lemma {:induction false} CorrectionsAfterAt(body: seq<Row>, n: nat, k: nat)
    requires n <= |body| && k < |KeepFirst(body, n)|
    ensures CorrectionsAfter(body, n)[k] == CorrectionOf(KeepFirst(body, n)[k], k + 1)
  {
    if !(|body[n - 1]| >= MinCells && k == |KeepFirst(body, n - 1)|) {
      CorrectionsAfterAt(body, n - 1, k);
    }
  }

  /** After `n` rows the loop holds the blocks of the rows kept so far. */
  lemma BlocksAfterSpec(body: seq<Row>, n: nat)
    requires n <= |body|
    ensures BlocksAfter(body, n) == ExamBlocks(KeepFirst(body, n))
  {
    var kept, blocks := KeepFirst(body, n), BlocksAfter(body, n);
    forall k | 0 <= k < |kept| ensures blocks[k] == BlockOf(kept[k], k + 1) {
      BlocksAfterAt(body, n, k);
    }
    assert blocks == ExamBlocks(kept);
  }

  /** After `n` rows the loop holds the correction rows of the rows kept so far. */
  lemma CorrectionsAfterSpec(body: seq<Row>, n: nat)
    requires n <= |body|
    ensures CorrectionsAfter(body, n) == Corrections(KeepFirst(body, n))
  {
    var kept, rows := KeepFirst(body, n), CorrectionsAfter(body, n);
    forall k | 0 <= k < |kept| ensures rows[k] == CorrectionOf(kept[k], k + 1) {
      CorrectionsAfterAt(body, n, k);
    }
    assert rows == Corrections(kept);
  }

  /** Every printed question is numbered by its position among the accepted
      rows, and every option it shows is a non-empty option of the row under
      that option's own positional letter. */
  lemma BlocksShape(rows: seq<Row>, k: nat)
    requires k < |AcceptedRows(rows)|
    ensures var b := ExamBlocks(AcceptedRows(rows))[k];
            var opts := Options(AcceptedRows(rows)[k]);
            b.number == k + 1 && b.text == QuestionText(AcceptedRows(rows)[k]) &&
            (forall i :: 0 <= i < |opts| ==>
               (opts[i] != "" <==> LetteredOption(Letters[i], opts[i]) in b.options))
  {
    var acc := AcceptedRows(rows);
    EmittedComplete(Options(acc[k]), |Options(acc[k])|);
  }
}
