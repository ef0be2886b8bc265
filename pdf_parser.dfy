/**
 * Completeness check of a question parsed from an exam PDF
 * (parsers/pdf_parser.py, `validate_question`). Reading the PDF is left out.
 */
module PdfParser {
  import opened Wrappers
  import opened Text

  /** A parsed question: its number if one was found, and its text fields ("question", "A", "B", "C"). */
  datatype ParsedQuestion = ParsedQuestion(questionNumber: Option<int>, fields: map<string, string>)

  const MissingNumber := "Missing question number"
  const MissingText := "Missing or empty question text"
  const OptionPrefix := "Missing or empty option "
  const TooShort := "Question text suspiciously short"
  const Options := ["A", "B", "C"]
  const MinLength := 10

  /** The field is present and not only whitespace. */
  predicate Filled(q: ParsedQuestion, key: string) {
    key in q.fields && Strip(q.fields[key]) != []
  }

  /** `len(question.get("question", ""))`: the unstripped length. */
  function TextLength(q: ParsedQuestion): nat {
    if "question" in q.fields then |q.fields["question"]| else 0
  }

  /** The messages are told apart by their text. */
  lemma MessagesDistinct(o: string)
    ensures OptionPrefix + o != MissingNumber && OptionPrefix + o != MissingText && OptionPrefix + o != TooShort
    ensures MissingNumber != MissingText && MissingNumber != TooShort && MissingText != TooShort
  {
    assert (OptionPrefix + o)[8] == 'o' && MissingNumber[8] == 'q' && MissingText[8] == 'o';
    assert (OptionPrefix + o)[17] == 'o' && MissingText[17] == 'q';
    assert TooShort[0] == 'Q' && MissingNumber[0] == 'M' && (OptionPrefix + o)[0] == 'M';
  }

  /** The errors of the option checks for the first `k` options, in order. */
  function OptionErrors(q: ParsedQuestion, k: nat): seq<string>
    requires k <= |Options|
  {
    if k == 0 then []
    else OptionErrors(q, k - 1) + (if Filled(q, Options[k - 1]) then [] else [OptionPrefix + Options[k - 1]])
  }

  /** The error list, check by check: number, text, options A to C, length. */
  function Errors(q: ParsedQuestion): seq<string> {
    (if q.questionNumber.None? then [MissingNumber] else []) +
    (if Filled(q, "question") then [] else [MissingText]) +
    OptionErrors(q, |Options|) +
    (if TextLength(q) < MinLength then [TooShort] else [])
  }

  /** `validate_question`: the errors of the failed checks, and whether there are none. */
  method ValidateQuestion(q: ParsedQuestion) returns (isValid: bool, errors: seq<string>)
    ensures errors == Errors(q)
    ensures isValid <==> errors == []
  {
    errors := [];
    if q.questionNumber.None? {
      errors := errors + [MissingNumber];
    }
    if !("question" in q.fields) || Strip(q.fields["question"]) == [] {
      errors := errors + [MissingText];
    }
    ghost var checked := errors;
    var k := 0;
    while k < |Options|
      invariant k <= |Options|
      invariant errors == checked + OptionErrors(q, k)
    {
      var option := Options[k];
      if !(option in q.fields) || Strip(q.fields[option]) == [] {
        errors := errors + [OptionPrefix + option];
      }
      k := k + 1;
    }
    if |(if "question" in q.fields then q.fields["question"] else "")| < MinLength {
      errors := errors + [TooShort];
    }
    isValid := |errors| == 0;
  }

  lemma {:induction false} OptionErrorsMembers(q: ParsedQuestion, k: nat, e: string)
    requires k <= |Options|
    ensures e in OptionErrors(q, k) <==> exists j :: 0 <= j < k && !Filled(q, Options[j]) && e == OptionPrefix + Options[j]
  {
    if k > 0 {
      OptionErrorsMembers(q, k - 1, e);
    }
  }

  /**
   * A question is valid exactly when it has a number, a non-blank text of
   * at least ten characters and three non-blank options.
   */
  lemma ValidIffComplete(q: ParsedQuestion)
    ensures Errors(q) == [] <==> q.questionNumber.Some? && Filled(q, "question") &&
                                 (forall o :: o in Options ==> Filled(q, o)) && TextLength(q) >= MinLength
  {
    if forall o :: o in Options ==> Filled(q, o) {
      if OptionErrors(q, |Options|) != [] {
        OptionErrorsMembers(q, |Options|, OptionErrors(q, |Options|)[0]);
      }
    } else {
      var o :| o in Options && !Filled(q, o);
      OptionErrorsMembers(q, |Options|, OptionPrefix + o);
    }
  }

  /** The number, text and length checks each contribute their own message exactly when they fail. */
  lemma CheckMessages(q: ParsedQuestion)
    ensures MissingNumber in Errors(q) <==> q.questionNumber.None?
    ensures MissingText in Errors(q) <==> !Filled(q, "question")
    ensures TooShort in Errors(q) <==> TextLength(q) < MinLength
  {
    MessagesDistinct("A");
    MessagesDistinct("B");
    MessagesDistinct("C");
    OptionErrorsMembers(q, |Options|, MissingNumber);
    OptionErrorsMembers(q, |Options|, MissingText);
    OptionErrorsMembers(q, |Options|, TooShort);
  }

  /** Each option check contributes the message naming that option exactly when the option is missing or blank. */
  lemma OptionMessages(q: ParsedQuestion, o: string)
    requires o in Options
    ensures OptionPrefix + o in Errors(q) <==> !Filled(q, o)
  {
    OptionErrorsMembers(q, |Options|, OptionPrefix + o);
    MessagesDistinct(o);
    forall j | 0 <= j < |Options| && OptionPrefix + o == OptionPrefix + Options[j] ensures o == Options[j] {
      PrefixCancels(OptionPrefix, o, Options[j]);
    }
    var k :| 0 <= k < |Options| && Options[k] == o;
  }

  /** At most six checks can fail. */
  lemma ErrorCount(q: ParsedQuestion)
    ensures |Errors(q)| <= 6
  {
    assert |OptionErrors(q, 1)| <= 1;
    assert |OptionErrors(q, 2)| <= 2;
    assert |OptionErrors(q, 3)| <= 3;
  }

  lemma PrefixCancels(p: string, x: string, y: string)
    requires p + x == p + y
    ensures x == y
  {
    assert (p + x)[|p|..] == x && (p + y)[|p|..] == y;
  }

  lemma OptionMessagesDistinct()
    ensures forall i, j :: 0 <= i < |Options| && 0 <= j < |Options| && OptionPrefix + Options[i] == OptionPrefix + Options[j] ==> i == j
  {
    forall i, j | 0 <= i < |Options| && 0 <= j < |Options| && OptionPrefix + Options[i] == OptionPrefix + Options[j]
      ensures i == j
    {
      assert (OptionPrefix + Options[i])[|OptionPrefix|] == Options[i][0];
      assert (OptionPrefix + Options[j])[|OptionPrefix|] == Options[j][0];
    }
  }
}
