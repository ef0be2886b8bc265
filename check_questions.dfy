/**
 * Consistency check of result files against the exam questions
 * (data/check_questions.py): every answered question must be an exam
 * question, no question may be answered twice in one file, and every exam
 * question must be answered. Files are given as their lines, already
 * decoded; reading directories and printing the report are left out.
 */
module CheckQuestions {
  import opened Wrappers
  import opened Text
  import opened StringOrder
  import TextFormatter

  /** `normalize_question`: `None` is "", anything else has its whitespace collapsed. */
  function NormalizeQuestion(text: Option<string>): string {
    match text
    case None => ""
    case Some(t) => Strip(JoinWith(Split(t), " "))
  }

  /** Normalising is the same as `clean_whitespace`, and normalising twice is normalising once. */
  lemma NormalizeQuestionIsCleanWhitespace(text: Option<string>)
    ensures text.None? ==> NormalizeQuestion(text) == ""
    ensures text.Some? ==> NormalizeQuestion(text) == TextFormatter.CleanWhitespace(text.value)
    ensures NormalizeQuestion(Some(NormalizeQuestion(text))) == NormalizeQuestion(text)
  {
    if text.Some? {
      var t := text.value;
      JoinedWordsShape(Split(t));
      StrippedStripsToItself(JoinWith(Split(t), " "));
      TextFormatter.CleanWhitespaceJoinsWords(t);
      SplitJoin(Split(t));
      StrippedStripsToItself(JoinWith(Split(t), " "));
    } else {
      assert Split("") == [];
    }
  }

  /**
   * One line of a JSONL file. In an entry, `question` is `None` when the
   * key is missing or null, and `year` is the printed form of the year
   * value (`None` when missing). A line that decodes to JSON other than an
   * object has no `Row`.
   */
  datatype Row = Blank | InvalidJson | Entry(question: Option<string>, examType: string, year: Option<string>)

  /** `f"{year}"`. */
  function YearText(year: Option<string>): string {
    match year
    case None => "None"
    case Some(y) => y
  }

  /** `f"{year}-{exam_type}-{question_text}"`. */
  function Triple(row: Row): string
    requires row.Entry?
  {
    YearText(row.year) + "-" + row.examType + "-" + NormalizeQuestion(row.question)
  }

  /** The triple of each line of a file, `None` for a blank or undecodable line. */
  function LineTriples(rows: seq<Row>): (r: seq<Option<string>>)
    ensures |r| == |rows|
  {
    seq(|rows|, i requires 0 <= i < |rows| => if rows[i].Entry? then Some(Triple(rows[i])) else None)
  }

  /** The values present, in order. */
  function Present(keys: seq<Option<string>>): seq<string> {
    if |keys| == 0 then []
    else Present(keys[..|keys| - 1]) + (if keys[|keys| - 1].Some? then [keys[|keys| - 1].value] else [])
  }

  /** The triples of the entries of a file, in line order; blank and undecodable lines count for nothing. */
  function Triples(rows: seq<Row>): seq<string> {
    Present(LineTriples(rows))
  }

  /** `load_exam_questions`: the triples of all exam files, file by file. */
  function AllTriples(files: seq<seq<Row>>): seq<string> {
    if |files| == 0 then [] else AllTriples(files[..|files| - 1]) + Triples(files[|files| - 1])
  }

  lemma {:induction false} AllTriplesMembers(files: seq<seq<Row>>, t: string)
    ensures t in AllTriples(files) <==> exists k :: 0 <= k < |files| && t in Triples(files[k])
  {
    if |files| > 0 {
      var init := files[..|files| - 1];
      AllTriplesMembers(init, t);
      if t in AllTriples(init) {
        var k :| 0 <= k < |init| && t in Triples(init[k]);
        assert files[k] == init[k];
      }
      if exists k :: 0 <= k < |files| && t in Triples(files[k]) {
        var k :| 0 <= k < |files| && t in Triples(files[k]);
        if k < |files| - 1 {
          assert init[k] == files[k];
        }
      }
    }
  }

  method LoadExamQuestions(files: seq<seq<Row>>) returns (allRows: seq<string>)
    ensures allRows == AllTriples(files)
    ensures forall t :: t in allRows <==> exists k :: 0 <= k < |files| && t in Triples(files[k])
  {
    allRows := [];
    var k := 0;
    while k < |files|
      invariant k <= |files|
      invariant allRows == AllTriples(files[..k])
    {
      var fileTriples := FileTriples(files[k]);
      assert files[..k + 1][..k] == files[..k];
      allRows := allRows + fileTriples;
      k := k + 1;
    }
    assert files[..k] == files;
    forall t ensures t in allRows <==> exists k :: 0 <= k < |files| && t in Triples(files[k]) {
      AllTriplesMembers(files, t);
    }
  }

  /** The inner loop of `load_exam_questions`: one file's triples. */
  method FileTriples(rows: seq<Row>) returns (triples: seq<string>)
    ensures triples == Triples(rows)
  {
    ghost var lt := LineTriples(rows);
    triples := [];
    var i := 0;
    while i < |rows|
      invariant i <= |rows|
      invariant triples == Present(lt[..i])
    {
      assert lt[..i + 1][..i] == lt[..i];
      if rows[i].Entry? {
        var triple := Triple(rows[i]);
        assert lt[i] == Some(triple);
        triples := triples + [triple];
      } else {
        assert lt[i] == None;
      }
      i := i + 1;
    }
    assert lt[..i] == lt;
  }

  /** `unknown`: every entry's triple, in order and with repeats, that is not an exam triple. */
  function Unknown(triples: seq<string>, examQuestions: set<string>): seq<string> {
    if |triples| == 0 then []
    else Unknown(triples[..|triples| - 1], examQuestions) +
         (if triples[|triples| - 1] in examQuestions then [] else [triples[|triples| - 1]])
  }

  lemma UnknownAppend(triples: seq<string>, t: string, examQuestions: set<string>)
    ensures Unknown(triples + [t], examQuestions) == Unknown(triples, examQuestions) + (if t in examQuestions then [] else [t])
  {
    assert (triples + [t])[..|triples|] == triples;
  }

  lemma {:induction false} UnknownMembers(triples: seq<string>, examQuestions: set<string>)
    ensures forall t :: t in Unknown(triples, examQuestions) <==> t in triples && t !in examQuestions
  {
    if |triples| > 0 {
      var init := triples[..|triples| - 1];
      UnknownMembers(init, examQuestions);
      assert triples == init + [triples[|triples| - 1]];
    }
  }

  /** A file with a problem: an unknown, a repeated or a missing triple. */
  predicate Clean(rows: seq<Row>, examQuestions: set<string>) {
    Distinct(Triples(rows)) && Elems(Triples(rows)) == examQuestions
  }

  /** What `check_results_against_exam` finds in one file. */
  datatype FileReport = FileReport(
    total: nat, unique: nat,
    duplicates: seq<string>, unknown: seq<string>, missing: seq<string>,
    hasIssue: bool)

  /**
   * One file of `check_results_against_exam`: the duplicates are exactly
   * the triples seen more than once, each listed once; the unknown list is
   * every entry not among the exam triples; the missing list is the exam
   * triples never seen, sorted; and the file has an issue exactly when it
   * does not hold each exam triple once and nothing else.
   */
  method CheckFile(rows: seq<Row>, examQuestions: set<string>) returns (report: FileReport)
    ensures report.total == |rows|
    ensures report.unique == |Elems(Triples(rows))|
    ensures Distinct(report.duplicates)
    ensures forall t :: t in report.duplicates <==> multiset(Triples(rows))[t] > 1
    ensures report.unknown == Unknown(Triples(rows), examQuestions)
    ensures StrictlySorted(report.missing) && Elems(report.missing) == examQuestions - Elems(Triples(rows))
    ensures report.hasIssue <==> report.unknown != [] || report.duplicates != [] || report.missing != []
    ensures report.hasIssue <==> !Clean(rows, examQuestions)
  {
    var total, seen, order, unknown := Tally(rows, examQuestions);
    report := Report(total, seen, order, unknown, Triples(rows), examQuestions);
  }

  /** The lists and the verdict of one file, from the tally of its triples. */
  method Report(total: nat, seen: map<string, nat>, order: seq<string>, unknown: seq<string>,
                ghost triples: seq<string>, examQuestions: set<string>) returns (report: FileReport)
    requires Counts(seen, order, triples) && unknown == Unknown(triples, examQuestions)
    ensures report.total == total && report.unique == |Elems(triples)|
    ensures Distinct(report.duplicates)
    ensures forall t :: t in report.duplicates <==> multiset(triples)[t] > 1
    ensures report.unknown == unknown
    ensures StrictlySorted(report.missing) && Elems(report.missing) == examQuestions - Elems(triples)
    ensures report.hasIssue <==> report.unknown != [] || report.duplicates != [] || report.missing != []
    ensures report.hasIssue <==> !(Distinct(triples) && Elems(triples) == examQuestions)
  {
    var duplicates := Duplicates(order, seen, triples);
    var missing := Missing(examQuestions, seen.Keys);
    var hasIssue := unknown != [] || duplicates != [] || missing != [];
    ElemsSize(order);
    report := FileReport(total, |seen.Keys|, duplicates, unknown, missing, hasIssue);
    IssueMeansNotClean(triples, examQuestions, duplicates, unknown, missing);
  }

  /**
   * The loop over the lines of one file: `seen` counts each triple, `order`
   * lists the counter's keys in insertion order, and `unknown` collects the
   * triples that are not exam triples.
   */
  method Tally(rows: seq<Row>, examQuestions: set<string>)
    returns (total: nat, seen: map<string, nat>, order: seq<string>, unknown: seq<string>)
    ensures total == |rows|
    ensures Distinct(order) && Elems(order) == seen.Keys == Elems(Triples(rows))
    ensures forall t :: t in seen ==> seen[t] == multiset(Triples(rows))[t]
    ensures unknown == Unknown(Triples(rows), examQuestions)
  {
    seen := map[];
    order := [];
    unknown := [];
    total := 0;
    ghost var lt := LineTriples(rows);
    var i := 0;
    while i < |rows|
      invariant i <= |rows| && total == i
      invariant Counts(seen, order, Present(lt[..i]))
      invariant unknown == Unknown(Present(lt[..i]), examQuestions)
    {
      ghost var before := Present(lt[..i]);
      assert lt[..i + 1][..i] == lt[..i];
      total := total + 1;
      if rows[i].Entry? {
        var triple := Triple(rows[i]);
        assert lt[i] == Some(triple);
        assert Present(lt[..i + 1]) == before + [triple];
        UnknownAppend(before, triple, examQuestions);
        seen, order := Count(seen, order, before, triple);
        if triple !in examQuestions {
          unknown := unknown + [triple];
        }
      } else {
        assert lt[i] == None;
        assert Present(lt[..i + 1]) == before;
      }
      i := i + 1;
    }
    assert lt[..i] == lt;
  }

  /** A counter of the triples seen so far, with its keys in insertion order. */
  ghost predicate Counts(seen: map<string, nat>, order: seq<string>, triples: seq<string>) {
    Distinct(order) && Elems(order) == seen.Keys == Elems(triples) &&
    forall t :: t in seen ==> seen[t] == multiset(triples)[t]
  }

  /** `seen[triple] += 1` on a `Counter`: a new key goes to the end of the key order. */
  method Count(seen: map<string, nat>, order: seq<string>, ghost triples: seq<string>, triple: string)
    returns (seen': map<string, nat>, order': seq<string>)
    requires Counts(seen, order, triples)
    ensures Counts(seen', order', triples + [triple])
    ensures seen'.Keys == seen.Keys + {triple}
  {
    assert Elems(triples + [triple]) == Elems(triples) + {triple};
    if triple in seen {
      seen' := seen[triple := seen[triple] + 1];
      order' := order;
    } else {
      seen' := seen[triple := 1];
      order' := order + [triple];
      assert Elems(order') == Elems(order) + {triple};
    }
  }

  /** `[t for t, c in seen.items() if c > 1]`. */
  method Duplicates(order: seq<string>, seen: map<string, nat>, ghost triples: seq<string>) returns (duplicates: seq<string>)
    requires Counts(seen, order, triples)
    ensures Distinct(duplicates) && Elems(duplicates) <= seen.Keys
    ensures forall t :: t in duplicates <==> multiset(triples)[t] > 1
  {
    duplicates := [];
    var k := 0;
    while k < |order|
      invariant k <= |order|
      invariant Distinct(duplicates) && Elems(duplicates) <= Elems(order[..k])
      invariant forall t :: t in duplicates <==> t in order[..k] && multiset(triples)[t] > 1
    {
      assert order[..k + 1] == order[..k] + [order[k]];
      if seen[order[k]] > 1 {
        duplicates := duplicates + [order[k]];
      }
      k := k + 1;
    }
    assert order[..k] == order;
    forall t | multiset(triples)[t] > 1 ensures t in order {
      assert t in triples && t in Elems(triples);
    }
  }

  /** `sorted(list(exam_questions - seen_set))`. */
  method Missing(examQuestions: set<string>, seenSet: set<string>) returns (missing: seq<string>)
    ensures StrictlySorted(missing) && Elems(missing) == examQuestions - seenSet
  {
    var missingList := ListOf(examQuestions - seenSet);
    missing := Sort(missingList);
    PermutationKeepsDistinct(missingList, missing);
    DistinctSortedIsStrict(missing);
    assert forall x :: x in missing <==> x in multiset(missing);
    assert forall x :: x in missingList <==> x in multiset(missingList);
  }

  /**
   * `list(s)` of a Python set: each member once, in the set's iteration
   * order, which the model leaves open (only the sorted list is observed).
   */
  method ListOf(items: set<string>) returns (r: seq<string>)
    ensures Distinct(r) && Elems(r) == items
  {
    r := [];
    var pending := items;
    while pending != {}
      invariant Distinct(r)
      invariant Elems(r) !! pending && Elems(r) + pending == items
      decreases pending
    {
      var k :| k in pending;
      r := r + [k];
      pending := pending - {k};
    }
  }

  lemma ElemsSize(s: seq<string>)
    requires Distinct(s)
    ensures |Elems(s)| == |s|
  {
    if s != [] {
      var init := s[..|s| - 1];
      ElemsSize(init);
      assert s == init + [s[|s| - 1]];
      assert Elems(s) == Elems(init) + {s[|s| - 1]};
    }
  }

  /** Some triple occurs twice exactly when the triples are not distinct. */
  lemma {:induction false} NotDistinctIffRepeated(s: seq<string>)
    ensures !Distinct(s) <==> exists t :: multiset(s)[t] > 1
  {
    if !Distinct(s) {
      var i, j :| 0 <= i < j < |s| && s[i] == s[j];
      TwoIndicesCount(s, i, j);
    }
    if Distinct(s) {
      forall t ensures multiset(s)[t] <= 1 {
        if t in s {
          var i :| 0 <= i < |s| && s[i] == t;
          DistinctCount(s, i);
        }
      }
    }
  }

  lemma IssueMeansNotClean(triples: seq<string>, examQuestions: set<string>,
                           duplicates: seq<string>, unknown: seq<string>, missing: seq<string>)
    requires forall t :: t in duplicates <==> multiset(triples)[t] > 1
    requires unknown == Unknown(triples, examQuestions)
    requires Elems(missing) == examQuestions - Elems(triples)
    ensures (unknown != [] || duplicates != [] || missing != []) <==>
            !(Distinct(triples) && Elems(triples) == examQuestions)
  {
    NotDistinctIffRepeated(triples);
    UnknownMembers(triples, examQuestions);
    ElemsEmptyIff(missing);
    if duplicates != [] {
      assert multiset(triples)[duplicates[0]] > 1;
    }
    if !Distinct(triples) {
      var t :| multiset(triples)[t] > 1;
      assert t in duplicates;
    }
    if unknown != [] {
      assert unknown[0] in Elems(triples) && unknown[0] !in examQuestions;
    }
    if Elems(triples) != examQuestions {
      if t :| t in Elems(triples) && t !in examQuestions {
        assert t in unknown;
      } else {
        var t :| t in examQuestions && t !in Elems(triples);
        assert t in Elems(missing);
      }
    }
  }

  /** The number of files with an issue. */
  function IssueCount(files: seq<seq<Row>>, examQuestions: set<string>): nat {
    if |files| == 0 then 0
    else IssueCount(files[..|files| - 1], examQuestions) + (if Clean(files[|files| - 1], examQuestions) then 0 else 1)
  }

  lemma {:induction false} NoIssuesIffAllClean(files: seq<seq<Row>>, examQuestions: set<string>)
    ensures IssueCount(files, examQuestions) == 0 <==> forall k :: 0 <= k < |files| ==> Clean(files[k], examQuestions)
  {
    if |files| > 0 {
      var init := files[..|files| - 1];
      NoIssuesIffAllClean(init, examQuestions);
      assert forall k :: 0 <= k < |init| ==> init[k] == files[k];
    }
  }

  /** `check_results_against_exam`: the number of result files with an issue. */
  method CheckResultsAgainstExam(files: seq<seq<Row>>, examQuestions: set<string>) returns (problems: nat)
    ensures problems == IssueCount(files, examQuestions)
    ensures problems <= |files|
    ensures problems == 0 <==> forall k :: 0 <= k < |files| ==> Clean(files[k], examQuestions)
  {
    problems := 0;
    var k := 0;
    while k < |files|
      invariant k <= |files| && problems == IssueCount(files[..k], examQuestions) && problems <= k
    {
      var report := CheckFile(files[k], examQuestions);
      assert files[..k + 1][..k] == files[..k];
      if report.hasIssue {
        problems := problems + 1;
      }
      k := k + 1;
    }
    assert files[..k] == files;
    NoIssuesIffAllClean(files, examQuestions);
  }

  /**
   * `main`: 2 when the exam or the results directory is missing; otherwise
   * 0 when every result file holds each exam triple exactly once and
   * nothing else, and 1 when some file does not.
   */
  method ExitCode(dataExists: bool, resultsExist: bool, examFiles: seq<seq<Row>>, resultFiles: seq<seq<Row>>)
    returns (code: int)
    ensures !dataExists || !resultsExist ==> code == 2
    ensures dataExists && resultsExist ==>
              (code == 0 <==> forall k :: 0 <= k < |resultFiles| ==> Clean(resultFiles[k], Elems(AllTriples(examFiles))))
    ensures dataExists && resultsExist ==> code == 0 || code == 1
  {
    if !dataExists || !resultsExist {
      return 2;
    }
    var examList := LoadExamQuestions(examFiles);
    var examSet := Elems(examList);
    var problems := CheckResultsAgainstExam(resultFiles, examSet);
    if problems > 0 {
      return 1;
    }
    return 0;
  }
}
