/** Concrete cases from the repository's tests, derived from the general
    lemmas of the model. */
module Scenarios {
  import opened Base
  import opened Numeric
  import opened Cigar
  import opened Paf
  import opened Validator

  function Repeat(c: char, n: nat): (s: string)
    ensures |s| == n && forall i :: 0 <= i < n ==> s[i] == c
  {
    seq(n, _ => c)
  }

  /** A CIGAR string that starts with the canonical count of `op` and its
      letter parses to `op`, followed by the parse of the rest. */
  lemma ParsePairThen(s: string, count: string, op: CigarOp, tail: string)
    requires count == ShowNat(op.len as nat) && s == count + [Letter(op)] + tail
    ensures tail == [] ==> ParseCigar(s) == Success([op])
    ensures ParseCigar(tail).Success? ==> ParseCigar(s) == Success([op] + ParseCigar(tail).value)
    ensures ParseCigar(tail).Failure? ==> ParseCigar(s) == ParseCigar(tail)
  {
    ParseU64ShowNat(op.len as nat);
    var p := Pair(count, Letter(op));
    assert PairOp(p) == op;
    ParseAfterPair(p, tail);
    assert s == p.count + ([p.letter] + tail);
    assert [op] + [] == [op];
  }

  /** A CIGAR string of three runs, each count written canonically. */
  lemma ParseThreeRuns(s: string, c1: string, o1: CigarOp, c2: string, o2: CigarOp, c3: string, o3: CigarOp)
    requires c1 == ShowNat(o1.len as nat) && c2 == ShowNat(o2.len as nat) && c3 == ShowNat(o3.len as nat)
    requires s == c1 + [Letter(o1)] + c2 + [Letter(o2)] + c3 + [Letter(o3)]
    ensures ParseCigar(s) == Success([o1, o2, o3])
  {
    var t3 := c3 + [Letter(o3)];
    var t2 := c2 + [Letter(o2)] + t3;
    assert t3 == c3 + [Letter(o3)] + [];
    ParsePairThen(t3, c3, o3, []);
    ParsePairThen(t2, c2, o2, t3);
    assert s == c1 + [Letter(o1)] + t2;
    ParsePairThen(s, c1, o1, t2);
    assert [o1] + ([o2] + [o3]) == [o1, o2, o3];
  }

  /** The CIGAR text of the integration tests. */
  lemma ParseTestCigar()
    ensures ParseCigar("50=1X49=") == Success([Match(50), Mismatch(1), Match(49)])
  {
    ParseThreeRuns("50=1X49=", "50", Match(50), "1", Mismatch(1), "49", Match(49));
  }

  /** A zero count is accepted. */
  lemma ParseZeroCount()
    ensures ParseCigar("0=") == Success([Match(0)])
  {
    ParsePairThen("0=", "0", Match(0), []);
  }

  /** Trailing digits with no letter after them are dropped. */
  lemma ParseTrailingDigits()
    ensures ParseCigar("7=12") == Success([Match(7)])
  {
    ParseDigits("12", [], []);
    assert "12" + [] == "12" && [] + "12" == "12";
    ParsePairThen("7=12", "7", Match(7), "12");
    assert [Match(7)] + [] == [Match(7)];
  }

  /** A letter with no count before it is an invalid count, at the start and
      right after another pair. */
  lemma ParseMissingCount()
    ensures ParseCigar("=") == Failure(InvalidCount)
    ensures ParseCigar("5==") == Failure(InvalidCount)
  {
    ParseBadPair([], [], '=', []);
    assert Render([]) + [] + ['='] + [] == "=";
    ParsePairThen("5==", "5", Match(5), "=");
  }

  /** A letter outside `= X I D` after a count is an unknown operator. */
  lemma ParseUnknownLetter()
    ensures ParseCigar("5Z") == Failure(UnknownOperator('Z'))
  {
    ParseBadPair([], "5", 'Z', []);
    assert Render([]) + "5" + ['Z'] + [] == "5Z";
  }

  /** The record of the integration tests: query1:100-200 against
      target1:150-250. */
  function TestRecord(cigar: string): PafRecord {
    PafRecord("query1", 1000, 100, 200, '+', "target1", 1000, 150, 250, cigar)
  }

  /** 100 identical `A` bases aligned as `100=`: no error and nothing
      printed. */
  lemma PerfectMatch()
    ensures ValidateRecord(TestRecord("100="), Some(Repeat('A', 100)), Some(Repeat('A', 100)), "report")
            == Validation(Passed, [])
  {
    ParsePairThen("100=", "100", Match(100), []);
    var ops := [Match(100)];
    var w := Repeat('A', 100);
    assert ops[..0] == [] && ops[..1] == ops;
    assert RunOk(ops, 0, w, w, "report");
    var rec := TestRecord("100=");
    ValidateRecordVerdict(rec, Some(w), Some(w), "report");
  }

  /** The cursors before each run of a three-run CIGAR. */
  lemma CursorsOfThree(a: CigarOp, b: CigarOp, c: CigarOp)
    ensures var ops := [a, b, c];
            && QuerySpan(ops[..0]) == 0 && TargetSpan(ops[..0]) == 0
            && QuerySpan(ops[..1]) == QueryAdvance(a) && TargetSpan(ops[..1]) == TargetAdvance(a)
            && QuerySpan(ops[..2]) == QueryAdvance(a) + QueryAdvance(b)
            && TargetSpan(ops[..2]) == TargetAdvance(a) + TargetAdvance(b)
            && QuerySpan(ops) == QueryAdvance(a) + QueryAdvance(b) + QueryAdvance(c)
            && TargetSpan(ops) == TargetAdvance(a) + TargetAdvance(b) + TargetAdvance(c)
  {
    var ops := [a, b, c];
    assert ops[..0] == [] && ops[..1] == [a] && ops[..2] == [a, b] && ops[..3] == ops;
    assert [a][..0] == [] && [a, b][..1] == [a] && ops[..2] == [a, b];
    CursorStep(ops, 0);
    CursorStep(ops, 1);
    CursorStep(ops, 2);
  }

  /** The runs of `50=1X49=` over two equal windows of 100 bases: the `=`
      run passes and the `X` run is flagged, over the bases 50..51. */
  lemma TestRunsOverSameBases(w: string)
    requires w == Repeat('C', 100)
    ensures var ops := [Match(50), Mismatch(1), Match(49)];
            && RunOk(ops, 0, w, w, "report") && !RunOk(ops, 1, w, w, "report")
            && QuerySpan(ops[..1]) == 50 && TargetSpan(ops[..1]) == 50
            && w[50..51] == "C"
  {
    var ops := [Match(50), Mismatch(1), Match(49)];
    CursorsOfThree(Match(50), Mismatch(1), Match(49));
    IdenticalWindows(Match(50), w, 0);
    IdenticalWindows(Mismatch(1), w, 50);
  }

  /** 100 identical `C` bases aligned as `50=1X49=`: mode "report" fails with
      exactly one "Match in Mismatch" finding, at position 100 + 50. */
  lemma FalseMismatchDetected()
    ensures var f := MatchInMismatch(150, "C", "C");
            ValidateRecord(TestRecord("50=1X49="), Some(Repeat('C', 100)), Some(Repeat('C', 100)), "report")
            == Validation(Failed(Reported(f)), [f])
  {
    ParseTestCigar();
    var w := Repeat('C', 100);
    TestRunsOverSameBases(w);
    ValidateRecordFirstBadRun(TestRecord("50=1X49="), Some(w), Some(w), "report", 1);
  }

  /** The same record in the default mode "omit" passes silently. */
  lemma FalseMismatchOmitted()
    ensures ValidateRecord(TestRecord("50=1X49="), Some(Repeat('C', 100)), Some(Repeat('C', 100)), "omit")
            == Validation(Passed, [])
  {
    ParseTestCigar();
    var w := Repeat('C', 100);
    CursorsOfThree(Match(50), Mismatch(1), Match(49));
    OtherModesPass(TestRecord("50=1X49="), Some(w), Some(w), "omit");
  }

  lemma ParseDetectionCigar()
    ensures ParseCigar("1=1X2=") == Success([Match(1), Mismatch(1), Match(2)])
  {
    ParseThreeRuns("1=1X2=", "1", Match(1), "1", Mismatch(1), "2", Match(2));
  }

  /** `ACGT` against itself aligned as `1=1X2=`: the `X` run over the equal
      `C`s is reported at position 1. */
  lemma MismatchDetection()
    ensures var f := MatchInMismatch(1, "C", "C");
            var rec := PafRecord("query1", 4, 0, 4, '+', "target1", 4, 0, 4, "1=1X2=");
            ValidateRecord(rec, Some("ACGT"), Some("ACGT"), "report") == Validation(Failed(Reported(f)), [f])
  {
    ParseDetectionCigar();
    var ops := [Match(1), Mismatch(1), Match(2)];
    var w := "ACGT";
    CursorsOfThree(Match(1), Mismatch(1), Match(2));
    IdenticalWindows(Match(1), w, 0);
    assert RunOk(ops, 0, w, w, "report");
    IdenticalWindows(Mismatch(1), w, 1);
    assert !RunOk(ops, 1, w, w, "report");
    assert w[1..2] == "C";
    var rec := PafRecord("query1", 4, 0, 4, '+', "target1", 4, 0, 4, "1=1X2=");
    ValidateRecordFirstBadRun(rec, Some(w), Some(w), "report", 1);
  }

  /** One disagreeing base inside a `12=` run gives one finding for the whole
      run, at the start of the run, carrying both whole slices. */
  lemma WholeRunReported()
    ensures var q, t := "ACTGACCGACTG", "ACTGACTGACTG";
            var f := MismatchInMatch(0, q, t);
            var rec := PafRecord("q", 12, 0, 12, '+', "t", 12, 0, 12, "12=");
            ValidateRecord(rec, Some(q), Some(t), "report") == Validation(Failed(Reported(f)), [f])
  {
    var q, t := "ACTGACCGACTG", "ACTGACTGACTG";
    ParsePairThen("12=", "12", Match(12), []);
    var ops := [Match(12)];
    assert ops[..0] == [];
    assert q[6] != t[0 + (6 - 0)];
    assert !AgreesOver(q, t, 0, 0, 12);
    assert !RunOk(ops, 0, q, t, "report");
    assert q[0..12] == q && t[0..12] == t;
    var rec := PafRecord("q", 12, 0, 12, '+', "t", 12, 0, 12, "12=");
    ValidateRecordFirstBadRun(rec, Some(q), Some(t), "report", 0);
  }

  lemma ParseInsertionCigar()
    ensures ParseCigar("6=1I6=") == Success([Match(6), Insertion(1), Match(6)])
  {
    ParseThreeRuns("6=1I6=", "6", Match(6), "1", Insertion(1), "6", Match(6));
  }

  /** The runs of `6=1I6=` over the windows of `InsertionAbsorbsQueryBase`. */
  lemma InsertionRunsOk(q: string, t: string)
    requires q == "ACTGACATGACTG" && t == "ACTGACTGACTG"
    ensures var ops := [Match(6), Insertion(1), Match(6)];
            && QuerySpan(ops) == 13 && TargetSpan(ops) == 12
            && forall j :: 0 <= j < |ops| ==> RunOk(ops, j, q, t, "report")
  {
    var ops := [Match(6), Insertion(1), Match(6)];
    CursorsOfThree(Match(6), Insertion(1), Match(6));
    assert AgreesOver(q, t, 0, 0, 6);
    assert RunOk(ops, 0, q, t, "report");
    assert RunOk(ops, 1, q, t, "report");
    assert AgreesOver(q, t, 7, 6, 6);
    assert RunOk(ops, 2, q, t, "report");
  }

  /** A 13-base query window against a 12-base target window aligned as
      `6=1I6=`: the insertion absorbs the extra query base. */
  lemma InsertionAbsorbsQueryBase()
    ensures var rec := PafRecord("q", 13, 0, 13, '+', "t", 12, 0, 12, "6=1I6=");
            ValidateRecord(rec, Some("ACTGACATGACTG"), Some("ACTGACTGACTG"), "report") == Validation(Passed, [])
  {
    var q, t := "ACTGACATGACTG", "ACTGACTGACTG";
    ParseInsertionCigar();
    InsertionRunsOk(q, t);
    var rec := PafRecord("q", 13, 0, 13, '+', "t", 12, 0, 12, "6=1I6=");
    ValidateRecordVerdict(rec, Some(q), Some(t), "report");
  }

  /** The PAF line of the integration tests, as its tab-separated columns,
      with the given CIGAR text in the `cg:Z:` field. */
  function TestColumns(cigar: string): seq<string> {
    ["query1", "1000", "100", "200", "+", "target1", "1000", "150", "250", "100", "100", "255", CIGAR_TAG + cigar]
  }

  /** The test line reads as the test record, whatever tab-free CIGAR text
      it carries. */
  lemma TestLineReads(cigar: string)
    requires TAB !in cigar
    ensures FromLine(Join(TestColumns(cigar), TAB)) == Success(TestRecord(cigar))
  {
    var rec := TestRecord(cigar);
    var middle := ["100", "100", "255"];
    assert ShowNat(1000) == "1000";
    assert ShowNat(100) == "100" && ShowNat(200) == "200" && ShowNat(150) == "150" && ShowNat(250) == "250";
    assert FormatFields(rec, middle) == TestColumns(cigar);
    FromLineFormatLine(rec, middle);
  }

  /** The lines of `test_perfect_match` and `test_false_mismatch_detection`
      read as the records the scenarios above validate. */
  lemma TestLines()
    ensures FromLine(Join(TestColumns("100="), TAB)) == Success(TestRecord("100="))
    ensures FromLine(Join(TestColumns("50=1X49="), TAB)) == Success(TestRecord("50=1X49="))
  {
    TestLineReads("100=");
    TestLineReads("50=1X49=");
  }
}
