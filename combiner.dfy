/**
 * Joining parsed exam questions with their answer key (parsers/combiner.py).
 */
module Combiner {
  import opened Wrappers
  import opened Text

  // ---------------------------------------------------------------------
  // int(year)
  // ---------------------------------------------------------------------

  predicate IsDigit(ch: char) {
    '0' <= ch <= '9'
  }

  /** The value of a run of decimal digits, most significant first. */
  function DigitsValue(ds: string): nat
    requires forall i :: 0 <= i < |ds| ==> IsDigit(ds[i])
  {
    if |ds| == 0 then 0
    else
      assert IsDigit(ds[|ds| - 1]);
      DigitsValue(ds[..|ds| - 1]) * 10 + (ds[|ds| - 1] as int - '0' as int)
  }

  /** `int(s)` on a string: surrounding whitespace, an optional sign and at least one decimal digit. */
  function ParseInt(s: string): Option<int> {
    var t := Strip(s);
    var negative := |t| > 0 && t[0] == '-';
    var digits := if |t| > 0 && (t[0] == '-' || t[0] == '+') then t[1..] else t;
    if |digits| > 0 && forall i :: 0 <= i < |digits| ==> IsDigit(digits[i]) then
      var value: int := DigitsValue(digits);
      Some(if negative then -value else value)
    else None
  }

  function DigitChar(d: nat): char
    requires d < 10
  {
    ('0' as int + d) as char
  }

  /** `str(n)` for a natural number. */
  function Decimal(n: nat): (r: string)
    ensures |r| > 0 && forall i :: 0 <= i < |r| ==> IsDigit(r[i])
  {
    if n < 10 then [DigitChar(n)] else Decimal(n / 10) + [DigitChar(n % 10)]
  }

  lemma {:induction false} DecimalValue(n: nat)
    ensures DigitsValue(Decimal(n)) == n
  {
    if n >= 10 {
      DecimalValue(n / 10);
      assert Decimal(n)[..|Decimal(n)| - 1] == Decimal(n / 10);
    } else {
      assert Decimal(n)[..0] == [];
    }
  }

  /** `int(str(n)) == n`: a year written out in decimal reads back as itself. */
  lemma ParseDecimal(n: nat)
    ensures ParseInt(Decimal(n)) == Some(n)
  {
    var d := Decimal(n);
    assert NoSpace(d);
    NoSpaceStripped(d);
    StrippedStripsToItself(d);
    DecimalValue(n);
  }

  // ---------------------------------------------------------------------
  // create_unified_jsonl
  // ---------------------------------------------------------------------

  /** A parsed question: its number, its text and three options. */
  datatype Question = Question(questionNumber: int, question: string, a: string, b: string, c: string)

  /** An entry of the answer key; either field may be absent. */
  datatype Answer = Answer(questionNumber: int, correctAnswer: Option<string>, legalBasis: Option<string>)

  /** One line of the unified JSONL file. */
  datatype UnifiedItem = UnifiedItem(
    id: int, year: int, examType: string, question: string,
    choices: seq<string>, answer: string, legalBasis: string)

  /** `{a["question_number"]: a for a in answers}`: a later answer replaces an earlier one with the same number. */
  function AnswerDict(answers: seq<Answer>): map<int, Answer> {
    if |answers| == 0 then map[]
    else AnswerDict(answers[..|answers| - 1])[answers[|answers| - 1].questionNumber := answers[|answers| - 1]]
  }

  /** `d.get(key, "")` for an optional field. */
  function OrEmpty(value: Option<string>): string {
    match value
    case Some(v) => v
    case None => ""
  }

  /** The unified item for one question. */
  function Unified(q: Question, answerDict: map<int, Answer>, examType: string, year: int): UnifiedItem {
    var answer := if q.questionNumber in answerDict then OrEmpty(answerDict[q.questionNumber].correctAnswer) else "";
    var legalBasis := if q.questionNumber in answerDict then OrEmpty(answerDict[q.questionNumber].legalBasis) else "";
    UnifiedItem(q.questionNumber, year, examType, q.question,
                ["A) " + q.a, "B) " + q.b, "C) " + q.c], answer, legalBasis)
  }

  /** The message of the ValueError `int(year)` raises for a year that is not a decimal integer. */
  function YearError(year: string): string {
    "invalid literal for int() with base 10: '" + year + "'"
  }

  /**
   * `create_unified_jsonl`: one item per question, in question order; the
   * year is converted inside the loop, so a bad year raises only when there
   * is a question.
   */
  method CreateUnifiedJsonl(questions: seq<Question>, answers: seq<Answer>, examType: string, year: string)
    returns (r: Result<seq<UnifiedItem>>)
    ensures r.Err? <==> |questions| > 0 && ParseInt(year).None?
    ensures r.Err? ==> r.error == YearError(year)
    ensures questions == [] ==> r == Ok([])
    ensures r.Ok? ==> |r.value| == |questions|
    ensures r.Ok? ==> forall i :: 0 <= i < |questions| ==>
              ParseInt(year).Some? && r.value[i] == Unified(questions[i], AnswerDict(answers), examType, ParseInt(year).value)
  {
    var answerDict := AnswerDict(answers);
    var unifiedData: seq<UnifiedItem> := [];
    var i := 0;
    while i < |questions|
      invariant i <= |questions| && |unifiedData| == i
      invariant i > 0 ==> ParseInt(year).Some?
      invariant forall j :: 0 <= j < i ==> ParseInt(year).Some? && unifiedData[j] == Unified(questions[j], answerDict, examType, ParseInt(year).value)
    {
      var q := questions[i];
      var qNum := q.questionNumber;
      var yearValue := ParseInt(year);
      if yearValue.None? {
        return Err(YearError(year));
      }
      var answerText := if qNum in answerDict then OrEmpty(answerDict[qNum].correctAnswer) else "";
      var legalBasis := if qNum in answerDict then OrEmpty(answerDict[qNum].legalBasis) else "";
      var unifiedItem := UnifiedItem(qNum, yearValue.value, examType, q.question,
                                     ["A) " + q.a, "B) " + q.b, "C) " + q.c], answerText, legalBasis);
      unifiedData := unifiedData + [unifiedItem];
      i := i + 1;
    }
    return Ok(unifiedData);
  }

  /** The dictionary holds exactly the numbers that occur, each bound to the last answer with that number. */
  lemma {:induction false} LastAnswerWins(answers: seq<Answer>, n: int)
    ensures n in AnswerDict(answers) <==> exists j :: 0 <= j < |answers| && answers[j].questionNumber == n
    ensures forall j :: 0 <= j < |answers| && answers[j].questionNumber == n &&
                        (forall k :: j < k < |answers| ==> answers[k].questionNumber != n) ==>
                        n in AnswerDict(answers) && AnswerDict(answers)[n] == answers[j]
  {
    if |answers| > 0 {
      var init := answers[..|answers| - 1];
      var last := answers[|answers| - 1];
      LastAnswerWins(init, n);
      assert forall j :: 0 <= j < |init| ==> init[j] == answers[j];
      if last.questionNumber != n {
        if exists j :: 0 <= j < |answers| && answers[j].questionNumber == n {
          var j :| 0 <= j < |answers| && answers[j].questionNumber == n;
          assert j < |init|;
        }
      }
    }
  }

  /**
   * Each item carries the question's number as its id and the converted
   * year, offers the three options prefixed "A) ", "B) " and "C) ", and
   * takes answer and legal basis from the last answer with that number,
   * or "" when no answer has it.
   */
  lemma UnifiedFields(q: Question, answers: seq<Answer>, examType: string, year: int)
    ensures var item := Unified(q, AnswerDict(answers), examType, year);
            item.id == q.questionNumber && item.year == year && item.question == q.question &&
            |item.choices| == 3 &&
            item.choices[0] == "A) " + q.a && item.choices[1] == "B) " + q.b && item.choices[2] == "C) " + q.c
    ensures (forall j :: 0 <= j < |answers| ==> answers[j].questionNumber != q.questionNumber) ==>
              Unified(q, AnswerDict(answers), examType, year).answer == "" &&
              Unified(q, AnswerDict(answers), examType, year).legalBasis == ""
    ensures forall j :: 0 <= j < |answers| && answers[j].questionNumber == q.questionNumber &&
                        (forall k :: j < k < |answers| ==> answers[k].questionNumber != q.questionNumber) ==>
                        Unified(q, AnswerDict(answers), examType, year).answer == OrEmpty(answers[j].correctAnswer) &&
                        Unified(q, AnswerDict(answers), examType, year).legalBasis == OrEmpty(answers[j].legalBasis)
  {
    LastAnswerWins(answers, q.questionNumber);
  }
}
