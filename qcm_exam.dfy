/** The interactive exam of qcm_web_app.py: how the exam view turns what the
    user ticked into a stored answer string, how the score is counted, and
    what the result report shows for each option. The widgets themselves
    are not modelled: a question card's state is a `Selection`. */
module QcmExam {
  import opened QcmRows
  import opened QcmWebApp

  datatype Option<T> = None | Some(value: T)

  /** What the user did on one question card: the letters whose checkbox is
      ticked (multi-answer card), or the position of the chosen radio label
      (single-answer card; `None` while nothing is chosen). */
  datatype Selection = Selection(ticked: set<char>, choice: Option<nat>)

  /** `len(['A', ..., 'F'][:len(q['opts'])])` */
  function OfferedCount(q: Question): (n: nat)
    ensures n <= |Letters| && n <= |q.opts|
    ensures |q.opts| <= |Letters| ==> n == |q.opts|
    ensures |q.opts| > |Letters| ==> n == |Letters|
  {
    if |q.opts| < |Letters| then |q.opts| else |Letters|
  }

  /** The letters offered for a question: one per option, at most six. */
  function Offered(q: Question): string {
    Letters[..OfferedCount(q)]
  }

  /** `is_multi = len(q['ans']) > 1`: checkboxes instead of radio buttons. */
  predicate IsMulti(q: Question) {
    |q.ans| > 1
  }

  /** A radio button can only return one of its labels. */
  predicate ValidSelection(q: Question, sel: Selection) {
    sel.choice.Some? ==> sel.choice.value < OfferedCount(q)
  }

  predicate Ascending(s: string) {
    forall i, j :: 0 <= i < j < |s| ==> s[i] < s[j]
  }

  predicate NonDecreasing(s: string) {
    forall i :: 0 < i < |s| ==> s[i - 1] <= s[i]
  }

  /** Insertion of one letter into a sorted string. */
  function Insert(c: char, s: string): (r: string)
    ensures |r| == |s| + 1
  {
    if s == [] || c <= s[0] then [c] + s else [s[0]] + Insert(c, s[1..])
  }

  /** `sorted(selected)` on one-letter strings, which compare by code point. */
  function SortLetters(s: string): (r: string)
    ensures |r| == |s|
  {
    if s == [] then [] else Insert(s[0], SortLetters(s[1..]))
  }

  lemma {:induction false} InsertKeepsLetters(c: char, s: string)
    ensures multiset(Insert(c, s)) == multiset(s) + multiset{c}
  {
    if s != [] && c > s[0] {
      InsertKeepsLetters(c, s[1..]);
      assert s == [s[0]] + s[1..];
    }
  }

  lemma {:induction false} InsertSorted(c: char, s: string)
    requires NonDecreasing(s)
    ensures NonDecreasing(Insert(c, s))
    ensures Insert(c, s)[0] == c || (s != [] && Insert(c, s)[0] == s[0])
  {
    if s != [] && c > s[0] {
      var t := s[1..];
      assert NonDecreasing(t) by {
        forall i | 0 < i < |t| ensures t[i - 1] <= t[i] {
          assert t[i - 1] == s[i] && t[i] == s[i + 1];
        }
      }
      InsertSorted(c, t);
      var r, u := Insert(c, s), Insert(c, t);
      assert r == [s[0]] + u;
      assert s[0] <= u[0] by {
        if t != [] { assert t[0] == s[1]; }
      }
      forall i | 0 < i < |r| ensures r[i - 1] <= r[i] {
        if i > 1 {
          assert r[i - 1] == u[i - 2] && r[i] == u[i - 1];
        }
      }
    }
  }

  /** sorted() returns its letters in non-decreasing order, none lost, none added. */
  lemma {:induction false} SortLettersSorts(s: string)
    ensures NonDecreasing(SortLetters(s))
    ensures multiset(SortLetters(s)) == multiset(s)
  {
    if s != [] {
      SortLettersSorts(s[1..]);
      InsertSorted(s[0], SortLetters(s[1..]));
      InsertKeepsLetters(s[0], SortLetters(s[1..]));
      assert s == [s[0]] + s[1..];
    }
  }

  /** Sorting letters that already ascend changes nothing. */
  lemma {:induction false} SortAscendingUnchanged(s: string)
    requires Ascending(s)
    ensures SortLetters(s) == s
  {
    if s != [] {
      var t := s[1..];
      assert Ascending(t) by {
        forall i, j | 0 <= i < j < |t| ensures t[i] < t[j] {
          assert t[i] == s[i + 1] && t[j] == s[j + 1];
        }
      }
      SortAscendingUnchanged(t);
      if t != [] {
        assert s[0] < t[0] by { assert t[0] == s[1]; }
      }
      assert s == [s[0]] + t;
    }
  }

  /** `for i, l in enumerate(letters): if st.checkbox(...): selected.append(l)` */
  function TickedLetters(ls: string, ticked: set<char>): (r: string)
    ensures |r| <= |ls|
  {
    if ls == [] then []
    else TickedLetters(ls[..|ls| - 1], ticked) + (if ls[|ls| - 1] in ticked then [ls[|ls| - 1]] else [])
  }

  lemma TickedLettersSnoc(ls: string, c: char, ticked: set<char>)
    ensures TickedLetters(ls + [c], ticked) == TickedLetters(ls, ticked) + (if c in ticked then [c] else [])
  {
    assert (ls + [c])[..|ls|] == ls;
  }

  /** The ticked letters are exactly the offered letters whose box is ticked,
      and they come in the order the letters were offered. */
  lemma {:induction false} TickedLettersSpec(ls: string, ticked: set<char>)
    requires Ascending(ls)
    ensures forall c :: c in TickedLetters(ls, ticked) <==> c in ls && c in ticked
    ensures Ascending(TickedLetters(ls, ticked))
  {
    if ls != [] {
      var init, last := ls[..|ls| - 1], ls[|ls| - 1];
      assert ls == init + [last];
      assert Ascending(init);
      TickedLettersSpec(init, ticked);
      var prev := TickedLetters(init, ticked);
      var r := TickedLetters(ls, ticked);
      assert forall c :: c in prev ==> c < last by {
        forall c | c in prev ensures c < last {
          var k :| 0 <= k < |init| && init[k] == c;
          assert ls[k] == c;
        }
      }
      if last in ticked {
        assert r == prev + [last];
        forall i, j | 0 <= i < j < |r| ensures r[i] < r[j] {
          if j < |prev| {
            assert r[i] == prev[i] && r[j] == prev[j];
          } else {
            assert r[i] == prev[i] && prev[i] in prev;
          }
        }
      }
    }
  }

  /** The letters the user selected on a question card, before sorting. */
  function Selected(q: Question, sel: Selection): (s: string)
    requires ValidSelection(q, sel)
    ensures |s| <= OfferedCount(q)
    ensures !IsMulti(q) ==> |s| <= 1
  {
    if IsMulti(q) then TickedLetters(Offered(q), sel.ticked)
    else if sel.choice.Some? then [Offered(q)[sel.choice.value]]
    else []
  }

  /** `"".join(sorted(selected))`: the answer stored for a question card. */
  function Captured(q: Question, sel: Selection): (stored: string)
    requires ValidSelection(q, sel)
    ensures NonDecreasing(stored) && multiset(stored) == multiset(Selected(q, sel))
  {
    SortLettersSorts(Selected(q, sel));
    SortLetters(Selected(q, sel))
  }

  /** A radio label: the letter, a dot, a space and the option text. */
  function Label(letter: char, opt: string): (caption: string)
    ensures caption != [] && caption[0] == letter
  {
    [letter] + ". " + opt
  }

  /** The answer capture of one question card in the exam view. */
  method CaptureAnswer(q: Question, sel: Selection) returns (stored: string)
    requires ValidSelection(q, sel)
    ensures stored == Captured(q, sel)
  {
    var letters := Letters[..OfferedCount(q)];
    var isMulti := |q.ans| > 1;
    var selected: string := [];
    if isMulti {
      for i := 0 to |letters|
        invariant selected == TickedLetters(letters[..i], sel.ticked)
      {
        assert letters[..i + 1] == letters[..i] + [letters[i]];
        TickedLettersSnoc(letters[..i], letters[i], sel.ticked);
        if letters[i] in sel.ticked {
          selected := selected + [letters[i]];
        }
      }
      assert letters[..|letters|] == letters;
    } else {
      var labels := seq(|letters|, i requires 0 <= i < |letters| => Label(letters[i], q.opts[i]));
      if sel.choice.Some? {
        var choice := labels[sel.choice.value];
        selected := [choice[0]];
      }
    }
    stored := SortLetters(selected);
  }

  lemma OfferedAscending(q: Question)
    ensures Ascending(Offered(q))
    ensures forall i :: 0 <= i < |Offered(q)| ==> Offered(q)[i] == Letters[i] && LetterIndex(Offered(q)[i]) == i
  {
    LetterCodes();
  }

  /** A stored answer is the selected letters in ascending order, drawn
      only from the offered letters; a single-answer card stores at most one
      letter, and nothing exactly when no radio label is chosen; a
      multi-answer card stores exactly the ticked offered letters. */
  lemma CapturedShape(q: Question, sel: Selection)
    requires ValidSelection(q, sel)
    ensures var s := Captured(q, sel);
      s == Selected(q, sel) && Ascending(s) &&
      (forall c :: c in s ==> c in Offered(q)) &&
      (!IsMulti(q) ==> |s| <= 1 && (s == [] <==> sel.choice.None?)) &&
      (IsMulti(q) ==> forall c :: c in s <==> c in Offered(q) && c in sel.ticked)
  {
    OfferedAscending(q);
    if IsMulti(q) {
      TickedLettersSpec(Offered(q), sel.ticked);
    }
    SortAscendingUnchanged(Selected(q, sel));
  }

  /** All cards of the exam view hold a selection their widgets can produce. */
  predicate AllValid(qs: seq<Question>, sels: seq<Selection>) {
    |sels| == |qs| && forall idx :: 0 <= idx < |qs| ==> ValidSelection(qs[idx], sels[idx])
  }

  /** The exam view's loop over the questions: `user_answers[idx] = ...` for
      every card, other entries of the answer dictionary left as they were. */
  method CaptureAll(qs: seq<Question>, sels: seq<Selection>, answers: map<nat, string>)
    returns (updated: map<nat, string>)
    requires AllValid(qs, sels)
    ensures forall idx :: 0 <= idx < |qs| ==> idx in updated && updated[idx] == Captured(qs[idx], sels[idx])
    ensures forall k :: k in answers && k >= |qs| ==> k in updated && updated[k] == answers[k]
    ensures forall k :: k in updated ==> k in answers || k < |qs|
  {
    updated := answers;
    for idx := 0 to |qs|
      invariant forall k :: 0 <= k < idx ==> k in updated && updated[k] == Captured(qs[k], sels[k])
      invariant forall k :: k in answers && k >= idx ==> k in updated && updated[k] == answers[k]
      invariant forall k :: k in updated ==> k in answers || k < idx
    {
      var stored := CaptureAnswer(qs[idx], sels[idx]);
      updated := updated[idx := stored];
    }
  }

  /** `user_answers.get(idx, "")` */
  function StoredAnswer(ua: map<nat, string>, idx: nat): string {
    if idx in ua then ua[idx] else ""
  }

  /** The exact-match test of scoring and of the report's ✅. */
  predicate IsCorrect(qs: seq<Question>, ua: map<nat, string>, idx: nat)
    requires idx < |qs|
  {
    StoredAnswer(ua, idx) == qs[idx].ans
  }

  /** The number of the first `n` questions answered exactly. */
  function Matches(qs: seq<Question>, ua: map<nat, string>, n: nat): (m: nat)
    requires n <= |qs|
    ensures m <= n
  {
    if n == 0 then 0 else Matches(qs, ua, n - 1) + (if IsCorrect(qs, ua, n - 1) then 1 else 0)
  }

  /** `score = 0; for idx, q in enumerate(questions): if ... == q['ans']: score += 1` */
  method Score(qs: seq<Question>, ua: map<nat, string>) returns (score: nat)
    ensures score == Matches(qs, ua, |qs|)
    ensures score <= |qs|
  {
    score := 0;
    for idx := 0 to |qs|
      invariant score == Matches(qs, ua, idx)
    {
      if StoredAnswer(ua, idx) == qs[idx].ans {
        score := score + 1;
      }
    }
  }

  /** The indices among the first `n` whose stored answer is exact. */
  function CorrectIndices(qs: seq<Question>, ua: map<nat, string>, n: nat): set<nat>
    requires n <= |qs|
  {
    set idx: nat | idx < n && IsCorrect(qs, ua, idx)
  }

  /** The score is the number of questions whose stored answer equals the
      normalised answer exactly. */
  lemma {:induction false} MatchesCountsCorrect(qs: seq<Question>, ua: map<nat, string>, n: nat)
    requires n <= |qs|
    ensures Matches(qs, ua, n) == |CorrectIndices(qs, ua, n)|
  {
    if n == 0 {
      assert CorrectIndices(qs, ua, 0) == {};
    } else {
      MatchesCountsCorrect(qs, ua, n - 1);
      var prev := CorrectIndices(qs, ua, n - 1);
      if IsCorrect(qs, ua, n - 1) {
        assert CorrectIndices(qs, ua, n) == prev + {n - 1};
        assert n - 1 !in prev;
      } else {
        assert CorrectIndices(qs, ua, n) == prev;
      }
    }
  }

  /** Full marks exactly when every question is answered exactly. */
  lemma {:induction false} PerfectScore(qs: seq<Question>, ua: map<nat, string>, n: nat)
    requires n <= |qs|
    ensures Matches(qs, ua, n) == n <==> forall idx :: 0 <= idx < n ==> IsCorrect(qs, ua, idx)
  {
    if n > 0 {
      PerfectScore(qs, ua, n - 1);
    }
  }

  /** No mark exactly when no question is answered exactly. */
  lemma {:induction false} ZeroScore(qs: seq<Question>, ua: map<nat, string>, n: nat)
    requires n <= |qs|
    ensures Matches(qs, ua, n) == 0 <==> forall idx :: 0 <= idx < n ==> !IsCorrect(qs, ua, idx)
  {
    if n > 0 {
      ZeroScore(qs, ua, n - 1);
    }
  }

  /** A question with an empty answer cell is a single-answer card, and
      leaving it unanswered scores it. */
  lemma EmptyAnswerScoresUnanswered(q: Question, sel: Selection)
    requires q.ans == "" && sel.choice.None?
    ensures Captured(q, sel) == q.ans
  {
  }

  /** An ascending string is its least letter followed by an ascending rest. */
  lemma AscendingSplit(s: string)
    requires Ascending(s) && s != []
    ensures s[0] in s
    ensures Ascending(s[1..])
    ensures forall c :: c in s <==> c == s[0] || c in s[1..]
    ensures forall c :: c in s[1..] ==> s[0] < c
  {
    assert s == [s[0]] + s[1..];
    forall c | c in s[1..] ensures s[0] < c {
      var k :| 0 <= k < |s[1..]| && s[1..][k] == c;
      assert s[k + 1] == c;
    }
    assert Ascending(s[1..]) by {
      forall i, j | 0 <= i < j < |s[1..]| ensures s[1..][i] < s[1..][j] {
        assert s[1..][i] == s[i + 1] && s[1..][j] == s[j + 1];
      }
    }
  }

  /** Two ascending strings with the same letters are the same string. */
  lemma {:induction false} AscendingUnique(a: string, b: string)
    requires Ascending(a) && Ascending(b)
    requires forall c :: c in a <==> c in b
    ensures a == b
  {
    if a != [] { AscendingSplit(a); }
    if b != [] { AscendingSplit(b); }
    if a != [] && b != [] {
      assert a[0] in b && b[0] in a;
      assert a[0] == b[0];
      assert forall c :: c in a[1..] <==> c in b[1..];
      AscendingUnique(a[1..], b[1..]);
      assert a == [a[0]] + a[1..] && b == [b[0]] + b[1..];
    }
  }

  /** An answer that can be scored at all: its letters ascend and each is offered. */
  predicate Reachable(q: Question) {
    Ascending(q.ans) && forall c :: c in q.ans ==> c in Offered(q)
  }

  /** Exact matching against a sorted capture: a question whose normalised
      answer is not in ascending order (`C,A` becomes `CA`), or names a letter
      beyond its options, can never be scored. */
  lemma OnlyReachableAnswersScore(q: Question, sel: Selection)
    requires ValidSelection(q, sel) && Captured(q, sel) == q.ans
    ensures Reachable(q)
  {
    CapturedShape(q, sel);
  }

  /** The selection that reproduces a reachable answer: the answer's letters
      ticked, or the radio label of its one letter. */
  function ExactSelection(q: Question): Selection {
    if |q.ans| == 1 && q.ans[0] in Letters then Selection({}, Some(LetterIndex(q.ans[0])))
    else Selection((set c | c in q.ans), None)
  }

  /** Every reachable answer is scored by some selection. */
  lemma ReachableAnswersScore(q: Question)
    requires Reachable(q)
    ensures ValidSelection(q, ExactSelection(q))
    ensures Captured(q, ExactSelection(q)) == q.ans
  {
    var sel := ExactSelection(q);
    OfferedAscending(q);
    if |q.ans| == 1 {
      assert q.ans[0] in Offered(q);
      var i :| 0 <= i < |Offered(q)| && Offered(q)[i] == q.ans[0];
      assert LetterIndex(q.ans[0]) == i;
      assert q.ans == [Offered(q)[i]];
    }
    CapturedShape(q, sel);
    if IsMulti(q) {
      AscendingUnique(Captured(q, sel), q.ans);
    }
  }

  /** The report's box for an option letter: "[ X ]" when the letter is in
      the answer, else "[ x ]" when the user selected it, else blank. */
  datatype Box = Correct | WronglySelected | Blank

  /** One printed option of the report: its box, letter and text. */
  datatype OptionLine = OptionLine(box: Box, letter: char, text: string)

  /** One question of the report. `selection` is the stored answer, or "NULL" when empty. */
  datatype ReportEntry = ReportEntry(number: nat, text: string, correct: bool, lines: seq<OptionLine>,
                                     selection: string, explanation: string)

  /** The report: the score out of the number of questions, then one entry per question. */
  datatype Report = Report(score: nat, outOf: nat, entries: seq<ReportEntry>)

  function BoxFor(letter: char, ans: string, user: string): (box: Box)
    ensures box == Correct <==> letter in ans
    ensures box == WronglySelected <==> letter !in ans && letter in user
    ensures box == Blank <==> letter !in ans && letter !in user
  {
    if letter in ans then Correct else if letter in user then WronglySelected else Blank
  }

  function LineFor(q: Question, user: string, i: nat): OptionLine
    requires i < |q.opts| && i < |Letters|
  {
    OptionLine(BoxFor(Letters[i], q.ans, user), Letters[i], q.opts[i])
  }

  /** The option lines of a question: one per option, in order. */
  function LinesOf(q: Question, user: string): (lines: seq<OptionLine>)
    requires |q.opts| <= |Letters|
  {
    seq(|q.opts|, i requires 0 <= i < |q.opts| => LineFor(q, user, i))
  }

  function EntryOf(q: Question, idx: nat, user: string): (entry: ReportEntry)
    requires |q.opts| <= |Letters|
  {
    ReportEntry(idx + 1, q.text, user == q.ans, LinesOf(q, user), if user == "" then "NULL" else user, q.expl)
  }

  /** The letter-to-position mapping of the report ends at F. */
  predicate AtMostSixOptions(qs: seq<Question>) {
    forall k :: 0 <= k < |qs| ==> |qs[k].opts| <= |Letters|
  }

  /** Every record parse_csv produces has 4 or 6 options, so the report may
      always be drawn for the parsed questions. */
  lemma ParsedQuestionsFitLetters(rows: seq<Row>)
    ensures AtMostSixOptions(ParseAll(AcceptedRows(rows)))
  {
    ParsedRecordsShape(rows);
  }

  function Entries(qs: seq<Question>, ua: map<nat, string>, n: nat): (es: seq<ReportEntry>)
    requires n <= |qs| && AtMostSixOptions(qs)
    ensures |es| == n
  {
    if n == 0 then [] else Entries(qs, ua, n - 1) + [EntryOf(qs[n - 1], n - 1, StoredAnswer(ua, n - 1))]
  }

  /** Number of report entries marked ✅. */
  function MarkedCount(es: seq<ReportEntry>): (m: nat)
    ensures m <= |es|
  {
    if es == [] then 0 else MarkedCount(es[..|es| - 1]) + (if es[|es| - 1].correct then 1 else 0)
  }

  lemma {:induction false} EntriesAt(qs: seq<Question>, ua: map<nat, string>, n: nat, k: nat)
    requires n <= |qs| && AtMostSixOptions(qs) && k < n
    ensures Entries(qs, ua, n)[k] == EntryOf(qs[k], k, StoredAnswer(ua, k))
  {
    if k < n - 1 {
      EntriesAt(qs, ua, n - 1, k);
    }
  }

  /** The report marks ✅ exactly the questions the score counts. */
  lemma {:induction false} MarksMatchScore(qs: seq<Question>, ua: map<nat, string>, n: nat)
    requires n <= |qs| && AtMostSixOptions(qs)
    ensures MarkedCount(Entries(qs, ua, n)) == Matches(qs, ua, n)
  {
    if n > 0 {
      MarksMatchScore(qs, ua, n - 1);
      var es := Entries(qs, ua, n);
      assert es[..n - 1] == Entries(qs, ua, n - 1);
      assert es[n - 1].correct == IsCorrect(qs, ua, n - 1);
    }
  }

  /** Entry k is marked ✅ exactly when question k is answered exactly. */
  lemma EntryMarked(qs: seq<Question>, ua: map<nat, string>, k: nat)
    requires AtMostSixOptions(qs) && k < |qs|
    ensures Entries(qs, ua, |qs|)[k].correct <==> IsCorrect(qs, ua, k)
  {
    EntriesAt(qs, ua, |qs|, k);
  }

  /** The boxes of one question. */
  method OptionBoxes(q: Question, user: string) returns (lines: seq<OptionLine>)
    requires |q.opts| <= |Letters|
    ensures lines == LinesOf(q, user)
  {
    lines := [];
    for i := 0 to |q.opts|
      invariant |lines| == i
      invariant forall m :: 0 <= m < i ==> lines[m] == LineFor(q, user, m)
    {
      var letter := Letters[i];
      var box := Blank;
      if letter in q.ans {
        box := Correct;
      } else if letter in user {
        box := WronglySelected;
      }
      lines := lines + [OptionLine(box, letter, q.opts[i])];
    }
  }

  /** `generate_result_report(questions, user_answers, score, title)`, without its markup.
      The score line divides by `len(questions)`, so the report needs at least one question. */
  method GenerateResultReport(qs: seq<Question>, ua: map<nat, string>, score: nat) returns (report: Report)
    requires |qs| > 0 && AtMostSixOptions(qs)
    ensures report == Report(score, |qs|, Entries(qs, ua, |qs|))
    ensures MarkedCount(report.entries) == Matches(qs, ua, |qs|)
  {
    var entries: seq<ReportEntry> := [];
    for idx := 0 to |qs|
      invariant entries == Entries(qs, ua, idx)
    {
      var q := qs[idx];
      var user := if idx in ua then ua[idx] else "";
      var lines := OptionBoxes(q, user);
      var selection := if user != "" then user else "NULL";
      entries := entries + [ReportEntry(idx + 1, q.text, user == q.ans, lines, selection, q.expl)];
    }
    report := Report(score, |qs|, entries);
    MarksMatchScore(qs, ua, |qs|);
  }

  /** Each option gets exactly one of the three boxes: "[ X ]" exactly for
      the answer's letters, "[ x ]" exactly for selected letters outside the
      answer; an exact answer never shows "[ x ]". */
  lemma BoxesOfEntry(q: Question, idx: nat, user: string, i: nat)
    requires |q.opts| <= |Letters| && i < |q.opts|
    ensures var line := EntryOf(q, idx, user).lines[i];
      line.letter == Letters[i] && line.text == q.opts[i] &&
      (line.box == Correct <==> Letters[i] in q.ans) &&
      (line.box == WronglySelected <==> Letters[i] !in q.ans && Letters[i] in user) &&
      (line.box == Blank <==> Letters[i] !in q.ans && Letters[i] !in user) &&
      (EntryOf(q, idx, user).correct ==> line.box != WronglySelected)
  {
  }

  /** For a captured answer and a reachable answer, the ✅ agrees with the
      boxes: the answer is exact exactly when no option shows "[ x ]" and
      every "[ X ]" letter was selected. */
  lemma MarkAgreesWithBoxes(q: Question, sel: Selection, idx: nat)
    requires |q.opts| <= |Letters| && ValidSelection(q, sel) && Reachable(q)
    ensures var e := EntryOf(q, idx, Captured(q, sel));
      e.correct <==>
        forall i :: 0 <= i < |e.lines| ==>
          e.lines[i].box != WronglySelected && (e.lines[i].box == Correct ==> e.lines[i].letter in Captured(q, sel))
  {
    var user := Captured(q, sel);
    var e := EntryOf(q, idx, user);
    CapturedShape(q, sel);
    OfferedAscending(q);
    assert OfferedCount(q) == |q.opts|;
    if forall i :: 0 <= i < |e.lines| ==>
         e.lines[i].box != WronglySelected && (e.lines[i].box == Correct ==> e.lines[i].letter in user)
    {
      forall c ensures c in user <==> c in q.ans {
        if c in user || c in q.ans {
          assert c in Offered(q);
          var i :| 0 <= i < |Offered(q)| && Offered(q)[i] == c;
          assert e.lines[i] == LineFor(q, user, i);
        }
      }
      AscendingUnique(user, q.ans);
    }
  }
}
