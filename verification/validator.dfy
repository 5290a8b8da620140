/** `validate_record`: walk the parsed CIGAR operations with a query cursor
    and a target cursor over the fetched query and target windows, compare
    each `=` and `X` run as a whole slice, and finally compare the cursors
    with the spans the record declares.  `report_error` decides what a
    finding does: in mode "report" it is printed and the call fails, in
    every other mode it is dropped. */
module Validator {
  import opened Base
  import opened Numeric
  import opened Cigar
  import opened Paf

  const REPORT_MODE: string := "report"

  /** What `report_error` is told; the message text is abstracted to its
      kind, the reported position and the two compared slices. */
  datatype Finding =
    | MismatchInMatch(position: nat, query: string, target: string)
    | MatchInMismatch(position: nat, query: string, target: string)
    | QueryLengthMismatch
    | TargetLengthMismatch

  datatype Reason =
    | QueryFetchFailed
    | TargetFetchFailed
    | CigarRejected(cause: CigarError)
    | Reported(finding: Finding)

  /** `Ok(())`, an `Err`, or a panic from slicing past the end of a window. */
  datatype Outcome = Passed | Failed(reason: Reason) | Panicked

  /** The outcome of one call, with the findings `report_error` printed. */
  datatype Validation = Validation(outcome: Outcome, emitted: seq<Finding>)

  /** `report_error`: the result and the lines printed. */
  function ReportError(mode: string, f: Finding): (r: (Result<(), Finding>, seq<Finding>))
    ensures r.0.Failure? <==> mode == REPORT_MODE
    ensures r.0.Failure? ==> r.0.error == f && r.1 == [f]
    ensures r.0.Success? ==> r.1 == []
  {
    if mode == REPORT_MODE then (Failure(f), [f]) else (Success(()), [])
  }

  /** How far an operation moves the query cursor: `D` does not. */
  function QueryAdvance(op: CigarOp): nat {
    match op
    case Deletion(_) => 0
    case _ => op.len as nat
  }

  /** How far an operation moves the target cursor: `I` does not. */
  function TargetAdvance(op: CigarOp): nat {
    match op
    case Insertion(_) => 0
    case _ => op.len as nat
  }

  /** The query bases a list of operations accounts for: its `=`, `X` and
      `I` run lengths summed. */
  function QuerySpan(ops: seq<CigarOp>): nat {
    if |ops| == 0 then 0 else QuerySpan(ops[..|ops| - 1]) + QueryAdvance(ops[|ops| - 1])
  }

  /** The target bases a list of operations accounts for: its `=`, `X` and
      `D` run lengths summed. */
  function TargetSpan(ops: seq<CigarOp>): nat {
    if |ops| == 0 then 0 else TargetSpan(ops[..|ops| - 1]) + TargetAdvance(ops[|ops| - 1])
  }

  /** Runs whose query and target bases are compared. */
  predicate Compared(op: CigarOp) {
    op.Match? || op.Mismatch?
  }

  /** Whether both slices of a compared run lie inside the windows. */
  predicate InRange(op: CigarOp, q: string, t: string, qIdx: nat, tIdx: nat) {
    Compared(op) ==> qIdx + op.len as nat <= |q| && tIdx + op.len as nat <= |t|
  }

  /** Whether the `n` bases from `qIdx` in the query agree one by one with
      the `n` bases from `tIdx` in the target. */
  predicate AgreesOver(q: string, t: string, qIdx: nat, tIdx: nat, n: nat)
    requires qIdx + n <= |q| && tIdx + n <= |t|
  {
    forall i :: qIdx <= i < qIdx + n ==> q[i] == t[tIdx + (i - qIdx)]
  }

  /** Whether a run contradicts its claim: an `=` run with any disagreeing
      base, or an `X` run whose every base agrees.  A partly agreeing `X`
      run is not flagged. */
  predicate Flagged(op: CigarOp, q: string, t: string, qIdx: nat, tIdx: nat)
    requires InRange(op, q, t, qIdx, tIdx)
  {
    match op
    case Match(n) => !AgreesOver(q, t, qIdx, tIdx, n as nat)
    case Mismatch(n) => AgreesOver(q, t, qIdx, tIdx, n as nat)
    case _ => false
  }

  lemma SliceEquality(q: string, t: string, qIdx: nat, tIdx: nat, n: nat)
    requires qIdx + n <= |q| && tIdx + n <= |t|
    ensures q[qIdx..qIdx + n] == t[tIdx..tIdx + n] <==> AgreesOver(q, t, qIdx, tIdx, n)
  {
    var qs, ts := q[qIdx..qIdx + n], t[tIdx..tIdx + n];
    if AgreesOver(q, t, qIdx, tIdx, n) {
      forall j | 0 <= j < n ensures qs[j] == ts[j] {
        assert q[qIdx + j] == t[tIdx + (qIdx + j - qIdx)];
      }
    }
    if qs == ts {
      forall i | qIdx <= i < qIdx + n ensures q[i] == t[tIdx + (i - qIdx)] {
        assert qs[i - qIdx] == ts[i - qIdx];
      }
    }
  }

  /** The comparison of one run: whole-slice equality of the query and
      target slices.  A flagged run is reported at the query window start
      plus the query cursor at the start of the run. */
  function RunFinding(op: CigarOp, q: string, t: string, queryStart: nat, qIdx: nat, tIdx: nat): (r: Option<Finding>)
    requires InRange(op, q, t, qIdx, tIdx)
    ensures r.Some? <==> Flagged(op, q, t, qIdx, tIdx)
    ensures r.Some? ==> (r.value.MismatchInMatch? <==> op.Match?) && (r.value.MatchInMismatch? <==> op.Mismatch?)
    ensures r.Some? ==> && r.value.position == queryStart + qIdx
                        && r.value.query == q[qIdx..qIdx + op.len as nat]
                        && r.value.target == t[tIdx..tIdx + op.len as nat]
  {
    match op
    case Match(n) =>
      var qs, ts := q[qIdx..qIdx + n as nat], t[tIdx..tIdx + n as nat];
      SliceEquality(q, t, qIdx, tIdx, n as nat);
      if qs != ts then Some(MismatchInMatch(queryStart + qIdx, qs, ts)) else None
    case Mismatch(n) =>
      var qs, ts := q[qIdx..qIdx + n as nat], t[tIdx..tIdx + n as nat];
      SliceEquality(q, t, qIdx, tIdx, n as nat);
      if qs == ts then Some(MatchInMismatch(queryStart + qIdx, qs, ts)) else None
    case _ => None
  }

  /** How the operation loop ends: every operation consumed, with the final
      cursors; a finding that `report_error` turned into an error; or a
      slice past the end of a window at operation `at`. */
  datatype WalkEnd = Completed(qIdx: nat, tIdx: nat) | Bailed(finding: Finding) | OutOfRange(at: nat)

  /** The loop over operations `k..` with the cursors at `qIdx`, `tIdx`. */
  function Walk(ops: seq<CigarOp>, k: nat, q: string, t: string, queryStart: nat, mode: string,
                qIdx: nat, tIdx: nat): (w: WalkEnd)
    requires k <= |ops|
    ensures w.Bailed? ==> mode == REPORT_MODE && (w.finding.MismatchInMatch? || w.finding.MatchInMismatch?)
    ensures w.OutOfRange? ==> k <= w.at < |ops|
    ensures w.Completed? ==> qIdx <= w.qIdx && tIdx <= w.tIdx
    decreases |ops| - k
  {
    if k == |ops| then Completed(qIdx, tIdx)
    else
      var op := ops[k];
      if !InRange(op, q, t, qIdx, tIdx) then OutOfRange(k)
      else
        var next := Walk(ops, k + 1, q, t, queryStart, mode, qIdx + QueryAdvance(op), tIdx + TargetAdvance(op));
        match RunFinding(op, q, t, queryStart, qIdx, tIdx)
        case None => next
        case Some(f) => if ReportError(mode, f).0.Failure? then Bailed(f) else next
  }

  /** A run that lets the walk go on, at the cursors the earlier runs lead
      to: in range, and in mode "report" not flagged. */
  predicate RunOk(ops: seq<CigarOp>, j: nat, q: string, t: string, mode: string)
    requires j < |ops|
  {
    var qIdx, tIdx := QuerySpan(ops[..j]), TargetSpan(ops[..j]);
    InRange(ops[j], q, t, qIdx, tIdx) && (mode == REPORT_MODE ==> !Flagged(ops[j], q, t, qIdx, tIdx))
  }

  lemma CursorStep(ops: seq<CigarOp>, k: nat)
    requires k < |ops|
    ensures QuerySpan(ops[..k + 1]) == QuerySpan(ops[..k]) + QueryAdvance(ops[k])
    ensures TargetSpan(ops[..k + 1]) == TargetSpan(ops[..k]) + TargetAdvance(ops[k])
  {
    assert ops[..k + 1][..k] == ops[..k];
  }

  lemma {:induction false} WalkFromCompletes(ops: seq<CigarOp>, k: nat, q: string, t: string, queryStart: nat, mode: string)
    requires k <= |ops|
    ensures var w := Walk(ops, k, q, t, queryStart, mode, QuerySpan(ops[..k]), TargetSpan(ops[..k]));
            && (w.Completed? <==> forall j :: k <= j < |ops| ==> RunOk(ops, j, q, t, mode))
            && (w.Completed? ==> w == Completed(QuerySpan(ops), TargetSpan(ops)))
    decreases |ops| - k
  {
    if k == |ops| {
      assert ops[..k] == ops;
    } else {
      WalkStep(ops, k, q, t, queryStart, mode);
      WalkFromCompletes(ops, k + 1, q, t, queryStart, mode);
    }
  }

  /** One step of the walk from the cursors the earlier runs lead to: a run
      that lets it go on hands over to the next run, any other run ends it
      short of completion. */
  lemma WalkStep(ops: seq<CigarOp>, k: nat, q: string, t: string, queryStart: nat, mode: string)
    requires k < |ops|
    ensures var w := Walk(ops, k, q, t, queryStart, mode, QuerySpan(ops[..k]), TargetSpan(ops[..k]));
            && (RunOk(ops, k, q, t, mode) ==>
                  w == Walk(ops, k + 1, q, t, queryStart, mode, QuerySpan(ops[..k + 1]), TargetSpan(ops[..k + 1])))
            && (!RunOk(ops, k, q, t, mode) ==> !w.Completed?)
  {
    CursorStep(ops, k);
  }

  lemma {:induction false} WalkFromStops(ops: seq<CigarOp>, i: nat, k: nat, q: string, t: string, queryStart: nat, mode: string)
    requires i <= k < |ops|
    requires forall j :: i <= j < k ==> RunOk(ops, j, q, t, mode)
    requires !RunOk(ops, k, q, t, mode)
    ensures var qIdx, tIdx := QuerySpan(ops[..k]), TargetSpan(ops[..k]);
            var w := Walk(ops, i, q, t, queryStart, mode, QuerySpan(ops[..i]), TargetSpan(ops[..i]));
            if !InRange(ops[k], q, t, qIdx, tIdx) then w == OutOfRange(k)
            else w == Bailed(RunFinding(ops[k], q, t, queryStart, qIdx, tIdx).value)
    decreases k - i
  {
    if i < k {
      assert RunOk(ops, i, q, t, mode);
      WalkStep(ops, i, q, t, queryStart, mode);
      WalkFromStops(ops, i + 1, k, q, t, queryStart, mode);
    }
  }

  /** The walk consumes every operation exactly when every run is in range
      and, in mode "report", none is flagged; it then ends with the query
      cursor at the query span and the target cursor at the target span. */
  lemma WalkCompletes(ops: seq<CigarOp>, q: string, t: string, queryStart: nat, mode: string)
    ensures var w := Walk(ops, 0, q, t, queryStart, mode, 0, 0);
            && (w.Completed? <==> forall j :: 0 <= j < |ops| ==> RunOk(ops, j, q, t, mode))
            && (w.Completed? ==> w == Completed(QuerySpan(ops), TargetSpan(ops)))
  {
    assert ops[..0] == [];
    WalkFromCompletes(ops, 0, q, t, queryStart, mode);
  }

  /** Fail-fast: the walk ends at the first run that does not let it go on,
      with a slice panic if that run is out of range, and otherwise with
      that run's finding; no later operation is looked at. */
  lemma WalkStopsAtFirstBadRun(ops: seq<CigarOp>, k: nat, q: string, t: string, queryStart: nat, mode: string)
    requires k < |ops|
    requires forall j :: 0 <= j < k ==> RunOk(ops, j, q, t, mode)
    requires !RunOk(ops, k, q, t, mode)
    ensures var qIdx, tIdx := QuerySpan(ops[..k]), TargetSpan(ops[..k]);
            var w := Walk(ops, 0, q, t, queryStart, mode, 0, 0);
            if !InRange(ops[k], q, t, qIdx, tIdx) then w == OutOfRange(k)
            else mode == REPORT_MODE && w == Bailed(RunFinding(ops[k], q, t, queryStart, qIdx, tIdx).value)
  {
    assert ops[..0] == [];
    WalkFromStops(ops, 0, k, q, t, queryStart, mode);
  }

  lemma {:induction false} WalkPrefix(ops: seq<CigarOp>, more: seq<CigarOp>, k: nat, q: string, t: string,
                                      queryStart: nat, mode: string, qIdx: nat, tIdx: nat)
    requires k <= |ops|
    requires Walk(ops, k, q, t, queryStart, mode, qIdx, tIdx).Completed?
    ensures var w := Walk(ops, k, q, t, queryStart, mode, qIdx, tIdx);
            Walk(ops + more, k, q, t, queryStart, mode, qIdx, tIdx)
              == Walk(ops + more, |ops|, q, t, queryStart, mode, w.qIdx, w.tIdx)
    decreases |ops| - k
  {
    if k < |ops| {
      assert (ops + more)[k] == ops[k];
      WalkPrefix(ops, more, k + 1, q, t, queryStart, mode, qIdx + QueryAdvance(ops[k]), tIdx + TargetAdvance(ops[k]));
    }
  }

  /** One more operation after a completed walk: `I` moves only the query
      cursor and `D` only the target cursor, each by its length; an `=` or
      `X` run panics unless both slices are in range, stops the walk in mode
      "report" when flagged (reported at the query cursor where the run
      starts), and otherwise moves both cursors by its length. */
  lemma WalkAppendRun(ops: seq<CigarOp>, op: CigarOp, q: string, t: string, queryStart: nat, mode: string)
    requires Walk(ops, 0, q, t, queryStart, mode, 0, 0).Completed?
    ensures var w := Walk(ops, 0, q, t, queryStart, mode, 0, 0);
            var w' := Walk(ops + [op], 0, q, t, queryStart, mode, 0, 0);
            && (op.Insertion? ==> w' == Completed(w.qIdx + op.len as nat, w.tIdx))
            && (op.Deletion? ==> w' == Completed(w.qIdx, w.tIdx + op.len as nat))
            && (Compared(op) && !InRange(op, q, t, w.qIdx, w.tIdx) ==> w' == OutOfRange(|ops|))
            && (Compared(op) && InRange(op, q, t, w.qIdx, w.tIdx) ==>
                  if mode == REPORT_MODE && Flagged(op, q, t, w.qIdx, w.tIdx)
                  then w' == Bailed(RunFinding(op, q, t, queryStart, w.qIdx, w.tIdx).value)
                  else w' == Completed(w.qIdx + op.len as nat, w.tIdx + op.len as nat))
  {
    WalkPrefix(ops, [op], 0, q, t, queryStart, mode, 0, 0);
    assert (ops + [op])[|ops|] == op;
  }

  /** The coordinates for which the unsigned `end - start` of the length
      checks does not underflow. */
  predicate ValidCoordinates(rec: PafRecord) {
    rec.queryStart <= rec.queryEnd && rec.targetStart <= rec.targetEnd
  }

  /** An end-of-walk check: `report_error` is called when the cursor is not
      at the declared span, and its result is discarded. */
  function LengthCheck(mode: string, cursor: nat, declared: nat, f: Finding): (printed: seq<Finding>)
    ensures printed != [] <==> mode == REPORT_MODE && cursor != declared
    ensures printed != [] ==> printed == [f]
  {
    if cursor != declared then ReportError(mode, f).1 else []
  }

  /** `validate_record` with the two fetches given as their results: the
      query window is fetched first, then the target window, then the CIGAR
      text is parsed and walked. */
  function ValidateRecord(rec: PafRecord, queryWindow: Option<string>, targetWindow: Option<string>, mode: string): (v: Validation)
    ensures queryWindow.None? ==> v == Validation(Failed(QueryFetchFailed), [])
    ensures queryWindow.Some? && targetWindow.None? ==> v == Validation(Failed(TargetFetchFailed), [])
    ensures queryWindow.Some? && targetWindow.Some? && ParseCigar(rec.cigar).Failure? ==>
              v == Validation(Failed(CigarRejected(ParseCigar(rec.cigar).error)), [])
    ensures mode != REPORT_MODE ==> v.emitted == []
    ensures mode != REPORT_MODE && v.outcome.Failed? ==> !v.outcome.reason.Reported?
    ensures v.outcome.Failed? && v.outcome.reason.Reported? ==>
              && v.emitted == [v.outcome.reason.finding]
              && (v.outcome.reason.finding.MismatchInMatch? || v.outcome.reason.finding.MatchInMismatch?)
    ensures v.outcome.Passed? ==> ValidCoordinates(rec)
    ensures v.outcome.Passed? || v.outcome.Panicked? ==>
              forall i :: 0 <= i < |v.emitted| ==> v.emitted[i] == QueryLengthMismatch || v.emitted[i] == TargetLengthMismatch
  {
    if queryWindow.None? then Validation(Failed(QueryFetchFailed), [])
    else if targetWindow.None? then Validation(Failed(TargetFetchFailed), [])
    else
      match ParseCigar(rec.cigar)
      case Failure(e) => Validation(Failed(CigarRejected(e)), [])
      case Success(ops) =>
        match Walk(ops, 0, queryWindow.value, targetWindow.value, rec.queryStart as nat, mode, 0, 0)
        case OutOfRange(_) => Validation(Panicked, [])
        case Bailed(f) => Validation(Failed(Reported(f)), [f])
        case Completed(qIdx, tIdx) =>
          if rec.queryEnd < rec.queryStart then Validation(Panicked, [])
          else
            var queryCheck := LengthCheck(mode, qIdx, (rec.queryEnd - rec.queryStart) as nat, QueryLengthMismatch);
            if rec.targetEnd < rec.targetStart then Validation(Panicked, queryCheck)
            else
              Validation(Passed,
                         queryCheck + LengthCheck(mode, tIdx, (rec.targetEnd - rec.targetStart) as nat, TargetLengthMismatch))
  }

  /** Once both windows are fetched and the CIGAR text parses, the record
      passes exactly when every run lets the walk go on.  A passing record
      in mode "report" prints a length mismatch on a side exactly when the
      summed run lengths differ from that side's declared span (end minus
      start, not the fetched window length), the query side first; either
      way it passes. */
  lemma ValidateRecordVerdict(rec: PafRecord, queryWindow: Option<string>, targetWindow: Option<string>, mode: string)
    requires ValidCoordinates(rec) && queryWindow.Some? && targetWindow.Some? && ParseCigar(rec.cigar).Success?
    ensures var ops := ParseCigar(rec.cigar).value;
            var v := ValidateRecord(rec, queryWindow, targetWindow, mode);
            && (v.outcome.Passed? <==> forall j :: 0 <= j < |ops| ==> RunOk(ops, j, queryWindow.value, targetWindow.value, mode))
            && (v.outcome.Passed? ==>
                  v.emitted == (if mode == REPORT_MODE && QuerySpan(ops) != (rec.queryEnd - rec.queryStart) as nat
                                then [QueryLengthMismatch] else [])
                             + (if mode == REPORT_MODE && TargetSpan(ops) != (rec.targetEnd - rec.targetStart) as nat
                                then [TargetLengthMismatch] else []))
  {
    var ops := ParseCigar(rec.cigar).value;
    WalkCompletes(ops, queryWindow.value, targetWindow.value, rec.queryStart as nat, mode);
  }

  /** A record whose every run lets the walk go on but whose end lies
      before its start panics in the length checks: at once when the query
      side underflows, and when only the target side does, after the
      query-side check has printed what it prints and nothing more. */
  lemma ValidateRecordUnderflow(rec: PafRecord, queryWindow: Option<string>, targetWindow: Option<string>, mode: string)
    requires queryWindow.Some? && targetWindow.Some? && ParseCigar(rec.cigar).Success?
    requires var ops := ParseCigar(rec.cigar).value;
             forall j :: 0 <= j < |ops| ==> RunOk(ops, j, queryWindow.value, targetWindow.value, mode)
    requires !ValidCoordinates(rec)
    ensures var ops := ParseCigar(rec.cigar).value;
            var v := ValidateRecord(rec, queryWindow, targetWindow, mode);
            && v.outcome == Panicked
            && (rec.queryEnd < rec.queryStart ==> v.emitted == [])
            && (rec.queryStart <= rec.queryEnd ==>
                  v.emitted == (if mode == REPORT_MODE && QuerySpan(ops) != (rec.queryEnd - rec.queryStart) as nat
                                then [QueryLengthMismatch] else []))
  {
    var ops := ParseCigar(rec.cigar).value;
    WalkCompletes(ops, queryWindow.value, targetWindow.value, rec.queryStart as nat, mode);
  }

  /** In mode "report" the record fails with the finding of its first
      flagged run, or panics at its first out-of-range run, whichever comes
      first; nothing is printed for it beyond that finding. */
  lemma ValidateRecordFirstBadRun(rec: PafRecord, queryWindow: Option<string>, targetWindow: Option<string>, mode: string, k: nat)
    requires queryWindow.Some? && targetWindow.Some? && ParseCigar(rec.cigar).Success?
    requires k < |ParseCigar(rec.cigar).value|
    requires forall j :: 0 <= j < k ==> RunOk(ParseCigar(rec.cigar).value, j, queryWindow.value, targetWindow.value, mode)
    requires !RunOk(ParseCigar(rec.cigar).value, k, queryWindow.value, targetWindow.value, mode)
    ensures var ops := ParseCigar(rec.cigar).value;
            var q, t := queryWindow.value, targetWindow.value;
            var qIdx, tIdx := QuerySpan(ops[..k]), TargetSpan(ops[..k]);
            var v := ValidateRecord(rec, queryWindow, targetWindow, mode);
            if !InRange(ops[k], q, t, qIdx, tIdx) then v == Validation(Panicked, [])
            else
              var f := RunFinding(ops[k], q, t, rec.queryStart as nat, qIdx, tIdx).value;
              v == Validation(Failed(Reported(f)), [f])
  {
    var ops := ParseCigar(rec.cigar).value;
    WalkStopsAtFirstBadRun(ops, k, queryWindow.value, targetWindow.value, rec.queryStart as nat, mode);
  }

  /** In every mode other than "report", a record whose windows are fetched,
      whose CIGAR text parses and whose compared runs all stay inside the
      windows passes silently, whatever the bases are. */
  lemma OtherModesPass(rec: PafRecord, queryWindow: Option<string>, targetWindow: Option<string>, mode: string)
    requires ValidCoordinates(rec) && queryWindow.Some? && targetWindow.Some? && ParseCigar(rec.cigar).Success?
    requires mode != REPORT_MODE
    requires var ops := ParseCigar(rec.cigar).value;
             forall j :: 0 <= j < |ops| ==>
               InRange(ops[j], queryWindow.value, targetWindow.value, QuerySpan(ops[..j]), TargetSpan(ops[..j]))
    ensures ValidateRecord(rec, queryWindow, targetWindow, mode) == Validation(Passed, [])
  {
    ValidateRecordVerdict(rec, queryWindow, targetWindow, mode);
  }

  /** Over two identical windows with the cursors level, an `=` run is
      never flagged and an `X` run always is. */
  lemma IdenticalWindows(op: CigarOp, w: string, idx: nat)
    requires Compared(op) && InRange(op, w, w, idx, idx)
    ensures Flagged(op, w, w, idx, idx) <==> op.Mismatch?
  {
  }

  /** A zero-length `=` run is never flagged; a zero-length `X` run always
      is, since its two empty slices are equal. */
  lemma ZeroLengthRuns(q: string, t: string, qIdx: nat, tIdx: nat)
    requires qIdx <= |q| && tIdx <= |t|
    ensures !Flagged(Match(0), q, t, qIdx, tIdx)
    ensures Flagged(Mismatch(0), q, t, qIdx, tIdx)
  {
  }
}
