# pafcheck core, modelled in Dafny

pafcheck checks the CIGAR strings of a PAF alignment file against the
sequences they align. This project models its core in Dafny:

- reading one PAF line into a record (`PafRecord::from_line`);
- reading the extended CIGAR text of the `cg:Z:` tag into operations
  (`parse_cigar`);
- validating one record against its fetched query and target windows
  (`validate_record` together with `report_error`).

It proves properties of each of these.

Modules, one per concern:

- `Base`: `Option` and a failure-compatible `Result`.
- `Numeric`: `u64`, decimal digits, and Rust's `str::parse::<u64>`. That
  parser accepts one leading `+` and leading zeros, and rejects the empty
  string and values above 2^64 - 1.
- `Cigar`: `parse_cigar`, written as a scan with a pending count. The module
  also has a renderer of count-and-letter pairs and a canonical printer.
  These are the partners of two round trips:
  - parsing rendered pairs gives their operations;
  - every accepted text is rendered pairs followed by dropped digits.
- `Paf`: tab splitting and joining, the `cg:Z:` search from column 12 on, and
  `from_line`. Its round trip is that a formatted record reads back as
  itself.
- `Validator`:
  - `report_error`;
  - the operation loop, as `Walk` over a cursor pair;
  - the two end-of-walk length checks;
  - `validate_record`.

  Its partner is a per-run characterisation, `RunOk`: the loop completes
  exactly when every run is in range and, in mode "report", not flagged. The
  loop stops at the first run that is not.
- `Scenarios`: the cases of the repository's tests and a few more, derived
  from the general lemmas.

How the model follows the code:

- A `validate_record` call is a `Validation`: an outcome (`Passed`, `Failed`
  with a reason, or `Panicked`) plus the findings that `report_error` printed.
- The two sequence fetches are parameters. Each is `Some(window)` or `None`
  (the fetch failed).
- A slice past the end of a window is a Rust panic. The model treats it as an
  outcome, not as a precondition.
- So is the unsigned underflow of `end - start` in the length checks, as in a
  debug build.

Behaviour taken from the code:

- In mode "report", the first flagged run ends the call with an error. In
  every other mode `report_error` returns `Ok(())` and prints nothing, so a
  flagged run never stops the loop. Fetch errors, CIGAR errors and slice
  panics still end the call in every mode.
- The two length checks after the loop discard `report_error`'s result. A
  length mismatch is therefore printed in mode "report" but never makes the
  call fail.
- Each `=` or `X` run is compared as one whole slice. A flagged run gives one
  finding, at `query_start` plus the query cursor where the run starts. It is
  not one finding per differing base.
- Digits left pending at the end of the CIGAR text are dropped silently.
- The strand is read but never used: there is no reverse complement.

## Model

| member | source | states |
|---|---|---|
| Numeric.ParseU64 | src/cigar_parser.rs:19 | `parse::<u64>` fails on the empty string, on any non-digit other than one leading `+`, and on values above 2^64 - 1. On all-digit text it succeeds exactly when the decimal value fits, and returns that value |
| Numeric.ParseU64ShowNat | src/cigar_parser.rs:19 | Every u64 written in decimal parses back to itself; the decimal text of any larger number is rejected |
| Numeric.ParseU64LeadingZero | src/cigar_parser.rs:19 | A leading zero does not change the parse of a digit string |
| Numeric.ParseU64Plus | src/paf_parser.rs:34-41 | One leading `+` does not change the parse of a digit string, so `+100` is a valid PAF coordinate |
| Cigar.OpFor | src/cigar_parser.rs:20-24 | Each of `= X I D` makes the matching operation, carrying the pending count |
| Cigar.ParseFrom | src/cigar_parser.rs:15-29 | On success, the scan emits one operation per non-digit character, in order, with that character's letter. An unknown-operator failure names a non-digit of the input that is not `= X I D` |
| Cigar.ParseCigar | src/cigar_parser.rs:11-31 | The empty text parses to no operations. On success there is exactly one operation per non-digit character, with its letter, in order |
| Cigar.ParseDigits | src/cigar_parser.rs:16-17 | Digits only extend the pending count: scanning digits then the rest equals scanning the rest with the digits appended to the count |
| Cigar.ParseFromAtDigit | src/cigar_parser.rs:16-17 | One digit moves onto the end of the pending count |
| Cigar.ParseFromAtLetter | src/cigar_parser.rs:18-27 | A successful scan at a non-digit had a valid pending count and an operator letter. It emits that operation in front of the operations of the rest, scanned with an empty count |
| Cigar.ParseAfterPair | src/cigar_parser.rs:15-28 | One well-formed count-and-letter pair in front of any text contributes its operation in front of the text's parse, errors included |
| Cigar.ParseAfterPairs | src/cigar_parser.rs:15-30 | Any run of well-formed pairs in front of any text contributes its operations in front of the text's parse, errors included |
| Cigar.ParseRendered | src/cigar_parser.rs:11-31 | Well-formed pairs (leading zeros allowed), followed by any digits, parse to exactly the pairs' operations |
| Cigar.TrailingDigitsDropped | src/cigar_parser.rs:15-30 | Digits at the end of the text that no letter follows never change the result |
| Cigar.ParseBadPair | src/cigar_parser.rs:19-25 | After well-formed pairs, a letter with an empty or overflowing count is an invalid count, which is checked before the letter. A letter outside `= X I D` after a valid count is an unknown operator. Nothing after it is looked at |
| Cigar.ParseBadPairAtFront | src/cigar_parser.rs:19-25 | The same two errors at the start of the text |
| Cigar.ParseFromSound | src/cigar_parser.rs:15-30 | Converse of `ParseRendered`, for a scan in progress: pending count plus remaining text are well-formed pairs plus trailing digits, and the scan returns those pairs' operations |
| Cigar.ParseCigarSound | src/cigar_parser.rs:11-31 | Every accepted text is well-formed pairs followed by digits, and parses to the pairs' operations |
| Cigar.ParsePrint | src/cigar_parser.rs:11-31 | Round trip: printing any operations in canonical CIGAR text and parsing it gives the operations back |
| Paf.Split | src/paf_parser.rs:19 | `split('\t')` gives one more field than there are tabs, and no field contains a tab |
| Paf.JoinSplit | src/paf_parser.rs:19 | Joining the fields of a split with tabs restores the line |
| Paf.SplitJoin | src/paf_parser.rs:19 | Splitting tab-free fields joined with tabs gives the fields back |
| Paf.CigarTagIndex | src/paf_parser.rs:24-30 | The search returns the first field at or after its start that begins with `cg:Z:`. It returns none when there is no such field |
| Paf.CigarOfFields | src/paf_parser.rs:24-30 | The CIGAR text is what follows `cg:Z:` in the first tagged field at index 12 or later, and empty when there is none |
| Paf.CigarTagIndexFirst | src/paf_parser.rs:24-30 | A tagged field with no tagged field before it is the one found |
| Paf.NumberField | src/paf_parser.rs:34 | A numeric column is read exactly when it parses as u64. Otherwise the error names the column |
| Paf.StrandField | src/paf_parser.rs:37 | The strand is the first character of column 4. An empty column is the `unwrap` failure |
| Paf.FromLine | src/paf_parser.rs:18-44 | A line is rejected for too few columns exactly when it has fewer than 12. A line is accepted exactly when columns 1-3 and 6-8 parse and column 4 is non-empty; the fields then hold names, strand and numbers. The first bad column in reading order decides the error |
| Paf.FromLineCigarTag | src/paf_parser.rs:24-30 | The CIGAR text is what follows `cg:Z:` in the first tagged field at index 12 or later. Columns 9-11 are never searched |
| Paf.FromLineNoCigarTag | src/paf_parser.rs:24-30 | With no tagged field from index 12 on, a readable line is accepted with an empty CIGAR text |
| Paf.FormatLineSplits | src/paf_parser.rs:19 | A formatted record line splits back into its columns |
| Paf.FormatFieldsReadable | src/paf_parser.rs:32-43 | The columns of a formatted record are readable and parse to the record's numbers |
| Paf.FormatFieldsCigar | src/paf_parser.rs:24-30 | The CIGAR text found in a formatted record's columns is the record's |
| Paf.FromLineFormatLine | src/paf_parser.rs:18-44 | Round trip: a record whose text fields hold no tab, formatted as a line and read back, is the same record |
| Validator.ReportError | src/validator.rs:92-98 | Mode "report" prints the finding and fails with it; every other mode prints nothing and succeeds |
| Validator.SliceEquality | src/validator.rs:29-31 | Two slices are equal exactly when the bases agree one by one |
| Validator.RunFinding | src/validator.rs:28-60 | An `=` run is flagged exactly when its slices differ, an `X` run exactly when they are equal, and `I` and `D` runs never. The finding carries the run's kind, `query_start + q_idx` and both whole slices |
| Validator.Walk | src/validator.rs:24-71 | The loop bails only in mode "report", with a run finding. A panic happens at an operation index of the list. A completed loop never moves a cursor backwards |
| Validator.CursorStep | src/validator.rs:43-68 | Each operation advances the cursors: `=` and `X` both, `I` the query only, `D` the target only, each by its length |
| Validator.WalkStep | src/validator.rs:26-71 | From the cursors that the earlier runs lead to, a good run hands over to the next run, and any other run ends the loop short of completion |
| Validator.WalkFromCompletes | src/validator.rs:26-71 | From any run on, the loop completes exactly when every remaining run is good. It then ends at the summed query and target advances |
| Validator.WalkFromStops | src/validator.rs:26-71 | From any earlier good run, the loop ends at the first bad run: a panic if it is out of range, otherwise that run's finding |
| Validator.WalkCompletes | src/validator.rs:24-71 | The whole loop completes exactly when every run is good, with the cursors at the query span and the target span |
| Validator.WalkStopsAtFirstBadRun | src/validator.rs:26-63 | Fail-fast: the loop ends at the first bad run, with a panic if that run is out of range and otherwise with its finding in mode "report". No later operation is looked at |
| Validator.WalkPrefix | src/validator.rs:26-71 | A completed loop over a prefix hands its cursors on unchanged to the operations after it |
| Validator.WalkAppendRun | src/validator.rs:26-70 | One more operation after a completed loop: `I` and `D` move one cursor, and an `=` or `X` run panics, bails or moves both cursors, according to its range and flag |
| Validator.ValidateRecord | src/validator.rs:6-90 | A failed query fetch fails first, then a failed target fetch, then a rejected CIGAR text, each printing nothing. Modes other than "report" print nothing and never fail with a finding. A reported failure prints exactly its run finding. A passing record has valid coordinates and printed only length mismatches |
| Validator.LengthCheck | src/validator.rs:74-87 | An end-of-loop check prints its finding once exactly when the mode is "report" and the cursor differs from the declared span, and it has no other effect |
| Validator.ValidateRecordVerdict | src/validator.rs:22-89 | Once both windows are fetched and the CIGAR text parses, the record passes exactly when every run is good. What it prints is exactly the query-side length mismatch, when in mode "report" the summed query run lengths differ from end minus start, followed by the target-side one under the same condition. It passes either way |
| Validator.ValidateRecordUnderflow | src/validator.rs:74-87 | When every run is good but an end lies before its start, the call panics. A query-side underflow panics before printing anything. A target-side one panics after the query-side length check, having printed exactly what that check prints: the query-side mismatch in mode "report" when the summed query run lengths differ from end minus start, and nothing otherwise |
| Validator.ValidateRecordFirstBadRun | src/validator.rs:22-63 | When the first k runs are good and run k is not, the call panics if run k is out of range. Otherwise it fails with run k's finding, and that finding is the only thing printed |
| Validator.OtherModesPass | src/validator.rs:92-98 | In any mode other than "report", a record with in-range runs passes silently, whatever its bases |
| Validator.IdenticalWindows | src/validator.rs:28-60 | Over identical windows, an `X` run is always flagged and an `=` run never is |
| Validator.ZeroLengthRuns | src/validator.rs:28-60 | A zero-length `=` run is never flagged; a zero-length `X` run always is, because its two empty slices are equal |
| Scenarios.TestLineReads | tests/integration_tests.rs:41 | The thirteen tab-separated columns of the integration tests' PAF line, with any tab-free CIGAR text, read as the test record |
| Scenarios.TestLines | tests/integration_tests.rs:56-76 | The PAF lines of `test_perfect_match` and `test_false_mismatch_detection` read as the records that the two scenarios below validate |
| Scenarios.ParseTestCigar | tests/integration_tests.rs:75 | `50=1X49=` parses to `=`50, `X`1, `=`49 |
| Scenarios.ParseZeroCount | src/cigar_parser.rs:19 | `0=` is accepted as a zero-length `=` run |
| Scenarios.ParseTrailingDigits | src/cigar_parser.rs:15-30 | `7=12` parses to the single run `=`7 |
| Scenarios.ParseMissingCount | src/cigar_parser.rs:19 | `=` and `5==` are rejected as invalid counts |
| Scenarios.ParseUnknownLetter | src/cigar_parser.rs:25 | `5Z` is rejected as the unknown operator `Z` |
| Scenarios.PerfectMatch | tests/integration_tests.rs:50-66 | 100 equal `A` bases against `100=` pass in mode "report" with nothing printed |
| Scenarios.FalseMismatchDetected | tests/integration_tests.rs:68-85 | 100 equal `C` bases against `50=1X49=` fail in mode "report" with exactly one Match-in-Mismatch finding, at 100 + 50, over `C` and `C` |
| Scenarios.FalseMismatchOmitted | src/validator.rs:92-98 | The same record in mode "omit" passes with nothing printed |
| Scenarios.MismatchDetection | tests/validation_tests.rs:18-56 | `ACGT` against itself with `1=1X2=` fails with a Match-in-Mismatch finding at position 1 over `C` and `C` |
| Scenarios.WholeRunReported | src/validator.rs:28-42 | One differing base inside a `12=` run gives one finding for the whole run, at the start of the run, carrying both whole slices |
| Scenarios.InsertionAbsorbsQueryBase | src/validator.rs:64-66 | A 13-base query window against a 12-base target window with `6=1I6=` passes with nothing printed |

## Left out

- The FASTA reader (`src/fasta_reader.rs`) is not part of this model. Each
  fetch is a parameter: the window text, or `None` for a failed fetch. Its
  conversion of `end` to the inclusive `end - 1` that htslib expects, and
  what htslib does with coordinates beyond a sequence, are not modelled.
- `src/main.rs` is not part of this model. That covers command-line
  handling, line iteration, error counting and exit codes. Its call to a
  four-argument `validate_record` and a `ValidationError` type does not match
  `src/validator.rs` as given.
- The debug `println!` of the two window lengths in `validate_record` is not
  modelled.
- The `[PAF_CHECK]` dump of the whole record that `report_error` prints, and
  the exact message texts. A finding keeps its kind, its position and the two
  slices.
- The `anyhow` error contexts. An error is its cause: a failed fetch, a
  rejected CIGAR text (`InvalidCount` or `UnknownOperator`) or a finding.
- Strings are sequences of characters, so byte indexing and the panic on
  slicing inside a multi-byte character are not modelled. The windows come
  from FASTA text and are ASCII in practice.
- Validator.ValidateRecord: the `usize` cursors, the `len as usize` casts and
  `query_start + q_idx` are unbounded integers, so overflow on 64-bit
  targets is not modelled. The unsigned `end - start` of the length checks
  is modelled as a debug-build panic; a release build would wrap around
  instead.
- Paf.StrandField: an empty strand column makes `unwrap` panic in the
  source. The model reports it as the error `EmptyStrand` instead.
- Scenarios.MismatchDetection: the test expects a message mentioning "CIGAR
  op 1", which `src/validator.rs` never produces. The model states the
  finding that the code reports: its kind, position 1 and the slices `C` and
  `C`.
- Scenarios.WholeRunReported: a per-base checker would report offset 6, the
  differing base. `src/validator.rs:28-42` reports once, at the start of the
  run, with both whole slices, and the model follows that.
