/** One line of a PAF file: twelve mandatory tab-separated columns, then
    optional `TAG:TYPE:VALUE` fields.  `PafRecord::from_line` keeps the
    query and target names, their lengths and window coordinates, the
    strand character, and the text of the first `cg:Z:` tag. */
module Paf {
  import opened Base
  import opened Numeric

  const TAB: char := '\t'
  const MIN_FIELDS: nat := 12
  const CIGAR_TAG: string := "cg:Z:"

  datatype PafRecord = PafRecord(
    queryName: string,
    queryLength: u64,
    queryStart: u64,
    queryEnd: u64,
    strand: char,
    targetName: string,
    targetLength: u64,
    targetStart: u64,
    targetEnd: u64,
    cigar: string)

  datatype PafError =
    | TooFewFields              // fewer than twelve columns
    | BadNumber(column: nat)    // a numeric column that is not a u64
    | EmptyStrand               // column 4 is empty: `unwrap` on no character panics

  function Occurrences(s: string, c: char): nat {
    if |s| == 0 then 0 else (if s[0] == c then 1 else 0) + Occurrences(s[1..], c)
  }

  /** `s.split(sep)`: the pieces between separators, including empty ones;
      the empty string is one empty field. */
  function Split(s: string, sep: char): (fields: seq<string>)
    ensures |fields| == Occurrences(s, sep) + 1
    ensures forall i :: 0 <= i < |fields| ==> sep !in fields[i]
    decreases |s|
  {
    if |s| == 0 then [[]]
    else if s[0] == sep then [[]] + Split(s[1..], sep)
    else
      var rest := Split(s[1..], sep);
      [[s[0]] + rest[0]] + rest[1..]
  }

  /** The inverse of `Split`: the fields with one separator between each
      neighbouring pair. */
  function Join(fields: seq<string>, sep: char): string
    requires 0 < |fields|
    decreases |fields|
  {
    if |fields| == 1 then fields[0] else fields[0] + [sep] + Join(fields[1..], sep)
  }

  lemma {:induction false} JoinSplit(s: string, sep: char)
    ensures Join(Split(s, sep), sep) == s
    decreases |s|
  {
    if |s| > 0 {
      JoinSplit(s[1..], sep);
      var rest := Split(s[1..], sep);
      if s[0] == sep {
        assert ([[]] + rest)[1..] == rest;
      } else {
        var fs := [[s[0]] + rest[0]] + rest[1..];
        if |rest| == 1 {
          assert Join(fs, sep) == [s[0]] + rest[0];
        } else {
          assert fs[1..] == rest[1..];
          assert Join(rest, sep) == rest[0] + [sep] + Join(rest[1..], sep);
        }
      }
    }
  }

  /** Splitting text that starts with a separator-free piece `a`. */
  lemma {:induction false} SplitPrefix(a: string, rest: string, sep: char)
    requires sep !in a
    ensures Split(a + rest, sep) == [a + Split(rest, sep)[0]] + Split(rest, sep)[1..]
    decreases |a|
  {
    if |a| == 0 {
      assert a + rest == rest;
      assert a + Split(rest, sep)[0] == Split(rest, sep)[0];
      assert Split(rest, sep) == [Split(rest, sep)[0]] + Split(rest, sep)[1..];
    } else {
      assert (a + rest)[0] == a[0] && (a + rest)[1..] == a[1..] + rest;
      assert a[0] != sep;
      assert sep !in a[1..];
      SplitPrefix(a[1..], rest, sep);
      assert [a[0]] + (a[1..] + Split(rest, sep)[0]) == a + Split(rest, sep)[0];
    }
  }

  /** Round trip: joining separator-free fields and splitting again gives
      the fields back. */
  lemma {:induction false} SplitJoin(fields: seq<string>, sep: char)
    requires 0 < |fields|
    requires forall i :: 0 <= i < |fields| ==> sep !in fields[i]
    ensures Split(Join(fields, sep), sep) == fields
    decreases |fields|
  {
    SplitPrefix(fields[0], [], sep);
    assert fields[0] + [] == fields[0];
    if |fields| > 1 {
      var tail := Join(fields[1..], sep);
      SplitJoin(fields[1..], sep);
      assert fields[0] + [sep] + tail == fields[0] + ([sep] + tail);
      SplitPrefix(fields[0], [sep] + tail, sep);
      assert ([sep] + tail)[0] == sep && ([sep] + tail)[1..] == tail;
      assert fields == [fields[0]] + fields[1..];
    }
  }

  predicate HasCigarTag(field: string) {
    |field| >= |CIGAR_TAG| && field[..|CIGAR_TAG|] == CIGAR_TAG
  }

  /** The index of the first field at or after `from` that starts with
      `cg:Z:`, if any. */
  function CigarTagIndex(fields: seq<string>, from: nat): (r: Option<nat>)
    ensures r.Some? ==> from <= r.value < |fields| && HasCigarTag(fields[r.value])
    ensures r.Some? ==> forall j :: from <= j < r.value ==> !HasCigarTag(fields[j])
    ensures r.None? ==> forall j :: from <= j < |fields| ==> !HasCigarTag(fields[j])
    decreases |fields| - from
  {
    if from >= |fields| then None
    else if HasCigarTag(fields[from]) then Some(from)
    else CigarTagIndex(fields, from + 1)
  }

  /** The CIGAR text of a line: what follows `cg:Z:` in the first tagged
      field among the optional fields, or the empty string. */
  function CigarOfFields(fields: seq<string>): (cigar: string)
    ensures (forall j :: MIN_FIELDS <= j < |fields| ==> !HasCigarTag(fields[j])) ==> cigar == []
    ensures forall i :: MIN_FIELDS <= i < |fields| && HasCigarTag(fields[i])
                        && (forall j :: MIN_FIELDS <= j < i ==> !HasCigarTag(fields[j]))
                        ==> cigar == fields[i][|CIGAR_TAG|..]
  {
    match CigarTagIndex(fields, MIN_FIELDS)
    case None => []
    case Some(i) => fields[i][|CIGAR_TAG|..]
  }

  function NumberField(fields: seq<string>, column: nat): (r: Result<u64, PafError>)
    requires column < |fields|
    ensures r.Success? <==> ParseU64(fields[column]).Some?
    ensures r.Success? ==> ParseU64(fields[column]) == Some(r.value)
    ensures r.Failure? ==> r.error == BadNumber(column)
  {
    match ParseU64(fields[column])
    case None => Failure(BadNumber(column))
    case Some(n) => Success(n)
  }

  function StrandField(field: string): (r: Result<char, PafError>)
    ensures r.Success? <==> 0 < |field|
    ensures r.Success? ==> r.value == field[0]
    ensures r.Failure? ==> r.error == EmptyStrand
  {
    if |field| == 0 then Failure(EmptyStrand) else Success(field[0])
  }

  /** Whether the mandatory columns of a split line are all readable: enough
      of them, six numbers and a non-empty strand column. */
  predicate Readable(fields: seq<string>) {
    && |fields| >= MIN_FIELDS
    && ParseU64(fields[1]).Some? && ParseU64(fields[2]).Some? && ParseU64(fields[3]).Some?
    && 0 < |fields[4]|
    && ParseU64(fields[6]).Some? && ParseU64(fields[7]).Some? && ParseU64(fields[8]).Some?
  }

  /** `PafRecord::from_line`.  The columns are read in the order the struct
      literal lists them, so the first unreadable one decides the error. */
  function FromLine(line: string): (r: Result<PafRecord, PafError>)
    ensures r == Failure(TooFewFields) <==> |Split(line, TAB)| < MIN_FIELDS
    ensures r.Success? <==> Readable(Split(line, TAB))
    ensures r.Success? ==>
              var f := Split(line, TAB);
              && r.value.queryName == f[0] && r.value.targetName == f[5]
              && r.value.strand == f[4][0]
              && ParseU64(f[1]) == Some(r.value.queryLength)
              && ParseU64(f[2]) == Some(r.value.queryStart)
              && ParseU64(f[3]) == Some(r.value.queryEnd)
              && ParseU64(f[6]) == Some(r.value.targetLength)
              && ParseU64(f[7]) == Some(r.value.targetStart)
              && ParseU64(f[8]) == Some(r.value.targetEnd)
    ensures r.Failure? && r.error.BadNumber? ==>
              var f := Split(line, TAB);
              && r.error.column in {1, 2, 3, 6, 7, 8}
              && ParseU64(f[r.error.column]).None?
              && (forall c :: c in {1, 2, 3, 6, 7, 8} && c < r.error.column ==> ParseU64(f[c]).Some?)
              && (r.error.column > 4 ==> 0 < |f[4]|)
    ensures r.Failure? && r.error == EmptyStrand ==>
              var f := Split(line, TAB);
              |f[4]| == 0 && ParseU64(f[1]).Some? && ParseU64(f[2]).Some? && ParseU64(f[3]).Some?
  {
    var fields := Split(line, TAB);
    if |fields| < MIN_FIELDS then Failure(TooFewFields)
    else
      var cigar := CigarOfFields(fields);
      var queryLength :- NumberField(fields, 1);
      var queryStart :- NumberField(fields, 2);
      var queryEnd :- NumberField(fields, 3);
      var strand :- StrandField(fields[4]);
      var targetLength :- NumberField(fields, 6);
      var targetStart :- NumberField(fields, 7);
      var targetEnd :- NumberField(fields, 8);
      Success(PafRecord(fields[0], queryLength, queryStart, queryEnd, strand,
                        fields[5], targetLength, targetStart, targetEnd, cigar))
  }

  /** The search finds the first tagged field, and only that one. */
  lemma CigarTagIndexFirst(fields: seq<string>, from: nat, i: nat)
    requires from <= i < |fields| && HasCigarTag(fields[i])
    requires forall j :: from <= j < i ==> !HasCigarTag(fields[j])
    ensures CigarTagIndex(fields, from) == Some(i)
  {
  }

  /** The CIGAR text is taken from the first field at index 12 or later
      that starts with `cg:Z:`; columns 9 to 11 are never searched. */
  lemma FromLineCigarTag(line: string, i: nat)
    requires FromLine(line).Success?
    requires MIN_FIELDS <= i < |Split(line, TAB)| && HasCigarTag(Split(line, TAB)[i])
    requires forall j :: MIN_FIELDS <= j < i ==> !HasCigarTag(Split(line, TAB)[j])
    ensures FromLine(line).value.cigar == Split(line, TAB)[i][|CIGAR_TAG|..]
  {
    var fields := Split(line, TAB);
    CigarTagIndexFirst(fields, MIN_FIELDS, i);
    assert FromLine(line).value.cigar == CigarOfFields(fields);
  }

  /** Without a `cg:Z:` field from index 12 on, the CIGAR text is empty and
      the line is still accepted. */
  lemma FromLineNoCigarTag(line: string)
    requires Readable(Split(line, TAB))
    requires forall j :: MIN_FIELDS <= j < |Split(line, TAB)| ==> !HasCigarTag(Split(line, TAB)[j])
    ensures FromLine(line).Success? && FromLine(line).value.cigar == []
  {
  }

  /** The columns of a record as a PAF line, with the given text in
      columns 9 to 11 and the CIGAR text as the one optional field. */
  function FormatFields(rec: PafRecord, middle: seq<string>): (fields: seq<string>)
    requires |middle| == 3
    ensures |fields| == 13
  {
    [rec.queryName, ShowNat(rec.queryLength as nat), ShowNat(rec.queryStart as nat),
     ShowNat(rec.queryEnd as nat), [rec.strand], rec.targetName,
     ShowNat(rec.targetLength as nat), ShowNat(rec.targetStart as nat),
     ShowNat(rec.targetEnd as nat)] + middle + [CIGAR_TAG + rec.cigar]
  }

  function FormatLine(rec: PafRecord, middle: seq<string>): string
    requires |middle| == 3
  {
    Join(FormatFields(rec, middle), TAB)
  }

  lemma NoTabInNumber(n: nat)
    ensures TAB !in ShowNat(n)
  {
    forall k | 0 <= k < |ShowNat(n)| ensures ShowNat(n)[k] != TAB {
      assert IsDigit(ShowNat(n)[k]);
    }
  }

  /** A formatted line splits back into its columns. */
  lemma FormatLineSplits(rec: PafRecord, middle: seq<string>)
    requires |middle| == 3 && forall i :: 0 <= i < 3 ==> TAB !in middle[i]
    requires TAB !in rec.queryName && TAB !in rec.targetName && TAB !in rec.cigar
    requires rec.strand != TAB
    ensures Split(FormatLine(rec, middle), TAB) == FormatFields(rec, middle)
  {
    var fields := FormatFields(rec, middle);
    NoTabInNumber(rec.queryLength as nat);
    NoTabInNumber(rec.queryStart as nat);
    NoTabInNumber(rec.queryEnd as nat);
    NoTabInNumber(rec.targetLength as nat);
    NoTabInNumber(rec.targetStart as nat);
    NoTabInNumber(rec.targetEnd as nat);
    assert TAB !in CIGAR_TAG + rec.cigar by {
      forall k | 0 <= k < |CIGAR_TAG + rec.cigar| ensures (CIGAR_TAG + rec.cigar)[k] != TAB {
        if k >= |CIGAR_TAG| { assert (CIGAR_TAG + rec.cigar)[k] == rec.cigar[k - |CIGAR_TAG|]; }
      }
    }
    forall i | 0 <= i < |fields| ensures TAB !in fields[i] {
      if 9 <= i < 12 { assert fields[i] == middle[i - 9]; }
    }
    SplitJoin(fields, TAB);
  }

  /** The formatted columns are readable and hold the record's numbers. */
  lemma FormatFieldsReadable(rec: PafRecord, middle: seq<string>)
    requires |middle| == 3
    ensures var f := FormatFields(rec, middle);
            && Readable(f)
            && ParseU64(f[1]) == Some(rec.queryLength)
            && ParseU64(f[2]) == Some(rec.queryStart)
            && ParseU64(f[3]) == Some(rec.queryEnd)
            && ParseU64(f[6]) == Some(rec.targetLength)
            && ParseU64(f[7]) == Some(rec.targetStart)
            && ParseU64(f[8]) == Some(rec.targetEnd)
  {
    var f := FormatFields(rec, middle);
    assert f[1] == ShowNat(rec.queryLength as nat) && f[2] == ShowNat(rec.queryStart as nat)
        && f[3] == ShowNat(rec.queryEnd as nat) && f[4] == [rec.strand]
        && f[6] == ShowNat(rec.targetLength as nat) && f[7] == ShowNat(rec.targetStart as nat)
        && f[8] == ShowNat(rec.targetEnd as nat);
    ParseU64ShowNat(rec.queryLength as nat);
    ParseU64ShowNat(rec.queryStart as nat);
    ParseU64ShowNat(rec.queryEnd as nat);
    ParseU64ShowNat(rec.targetLength as nat);
    ParseU64ShowNat(rec.targetStart as nat);
    ParseU64ShowNat(rec.targetEnd as nat);
  }

  /** The CIGAR text of the formatted columns is the record's. */
  lemma FormatFieldsCigar(rec: PafRecord, middle: seq<string>)
    requires |middle| == 3
    ensures CigarOfFields(FormatFields(rec, middle)) == rec.cigar
  {
    var f := FormatFields(rec, middle);
    assert f[12] == CIGAR_TAG + rec.cigar;
    assert (CIGAR_TAG + rec.cigar)[..|CIGAR_TAG|] == CIGAR_TAG;
    assert (CIGAR_TAG + rec.cigar)[|CIGAR_TAG|..] == rec.cigar;
    assert CigarTagIndex(f, MIN_FIELDS) == Some(12);
  }

  /** Round trip: formatting a record whose text fields hold no tab and
      reading the line back gives the same record. */
  lemma FromLineFormatLine(rec: PafRecord, middle: seq<string>)
    requires |middle| == 3 && forall i :: 0 <= i < 3 ==> TAB !in middle[i]
    requires TAB !in rec.queryName && TAB !in rec.targetName && TAB !in rec.cigar
    requires rec.strand != TAB
    ensures FromLine(FormatLine(rec, middle)) == Success(rec)
  {
    var line := FormatLine(rec, middle);
    var fields := FormatFields(rec, middle);
    FormatLineSplits(rec, middle);
    FormatFieldsReadable(rec, middle);
    FormatFieldsCigar(rec, middle);
    var r := FromLine(line).value;
    assert r.cigar == CigarOfFields(fields);
    assert fields[0] == rec.queryName && fields[5] == rec.targetName && fields[4] == [rec.strand];
  }
}
