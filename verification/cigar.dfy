/** The extended-CIGAR grammar of the PAF `cg:Z:` tag: a run of decimal
    digits followed by one of the operator letters `=`, `X`, `I`, `D`,
    repeated with no separators.  `parse_cigar` reads it in one
    left-to-right scan, collecting digits into a pending count and
    emitting one operation at every non-digit character. */
module Cigar {
  import opened Base
  import opened Numeric

  datatype CigarOp =
    | Match(len: u64)      // `=`: query and target agree over the run
    | Mismatch(len: u64)   // `X`: query and target differ over the run
    | Insertion(len: u64)  // `I`: bases present in the query only
    | Deletion(len: u64)   // `D`: bases present in the target only

  datatype CigarError =
    | InvalidCount               // no pending digits, or a count above U64_MAX
    | UnknownOperator(op: char)  // a non-digit outside `= X I D`

  predicate IsOpLetter(c: char) {
    c == '=' || c == 'X' || c == 'I' || c == 'D'
  }

  /** The letter that denotes an operation in CIGAR text. */
  function Letter(op: CigarOp): (c: char)
    ensures IsOpLetter(c)
  {
    match op
    case Match(_) => '='
    case Mismatch(_) => 'X'
    case Insertion(_) => 'I'
    case Deletion(_) => 'D'
  }

  /** The operation an operator letter denotes, with the given count. */
  function OpFor(c: char, count: u64): (op: CigarOp)
    requires IsOpLetter(c)
    ensures Letter(op) == c && op.len == count
  {
    match c
    case '=' => Match(count)
    case 'X' => Mismatch(count)
    case 'I' => Insertion(count)
    case 'D' => Deletion(count)
  }

  function Letters(ops: seq<CigarOp>): (cs: string)
    ensures |cs| == |ops|
  {
    if |ops| == 0 then [] else [Letter(ops[0])] + Letters(ops[1..])
  }

  /** The characters of `s` that are not ASCII digits, in order. */
  function NonDigits(s: string): string {
    if |s| == 0 then []
    else if IsDigit(s[0]) then NonDigits(s[1..])
    else [s[0]] + NonDigits(s[1..])
  }

  /** The scan of `parse_cigar` over the rest `s` of the input, with the
      digits collected so far in `num`.  At a non-digit the pending count is
      parsed first and the letter checked second; digits left pending at
      the end of the input are dropped. */
  function ParseFrom(s: string, num: string): (r: Result<seq<CigarOp>, CigarError>)
    requires AllDigits(num)
    ensures r.Success? ==> Letters(r.value) == NonDigits(s)
    ensures r.Failure? && r.error.UnknownOperator? ==>
              r.error.op in s && !IsDigit(r.error.op) && !IsOpLetter(r.error.op)
    decreases |s|
  {
    if |s| == 0 then Success([])
    else if IsDigit(s[0]) then
      AppendDigit(num, s[0]);
      ParseFrom(s[1..], num + [s[0]])
    else
      match ParseU64(num)
      case None => Failure(InvalidCount)
      case Some(count) =>
        if !IsOpLetter(s[0]) then Failure(UnknownOperator(s[0]))
        else
          match ParseFrom(s[1..], [])
          case Failure(e) => Failure(e)
          case Success(rest) =>
            assert Letters([OpFor(s[0], count)] + rest)
                == [s[0]] + Letters(rest) by {
              assert ([OpFor(s[0], count)] + rest)[1..] == rest;
            }
            Success([OpFor(s[0], count)] + rest)
  }

  /** `parse_cigar`: on success there is exactly one operation per
      non-digit character, carrying that character's letter, in order. */
  function ParseCigar(s: string): (r: Result<seq<CigarOp>, CigarError>)
    ensures s == [] ==> r == Success([])
    ensures r.Success? ==> Letters(r.value) == NonDigits(s) && |r.value| == |NonDigits(s)|
    ensures r.Failure? && r.error.UnknownOperator? ==>
              r.error.op in s && !IsDigit(r.error.op) && !IsOpLetter(r.error.op)
  {
    ParseFrom(s, [])
  }

  /** One count-and-letter pair of CIGAR text, as written (leading zeros
      allowed). */
  datatype Pair = Pair(count: string, letter: char)

  predicate WellFormedPair(p: Pair) {
    AllDigits(p.count) && ParseU64(p.count).Some? && IsOpLetter(p.letter)
  }

  predicate WellFormedPairs(ps: seq<Pair>) {
    forall i :: 0 <= i < |ps| ==> WellFormedPair(ps[i])
  }

  function Render(ps: seq<Pair>): string {
    if |ps| == 0 then [] else ps[0].count + [ps[0].letter] + Render(ps[1..])
  }

  function PairOp(p: Pair): CigarOp
    requires WellFormedPair(p)
  {
    OpFor(p.letter, ParseU64(p.count).value)
  }

  function PairOps(ps: seq<Pair>): seq<CigarOp>
    requires WellFormedPairs(ps)
  {
    if |ps| == 0 then [] else [PairOp(ps[0])] + PairOps(ps[1..])
  }

  /** The canonical pairs of a list of operations: each count in decimal
      without leading zeros. */
  function CanonicalPairs(ops: seq<CigarOp>): seq<Pair> {
    if |ops| == 0 then [] else [Pair(ShowNat(ops[0].len as nat), Letter(ops[0]))] + CanonicalPairs(ops[1..])
  }

  /** The CIGAR text of a list of operations, e.g. `50=1X49=`. */
  function Print(ops: seq<CigarOp>): string {
    Render(CanonicalPairs(ops))
  }

  /** Prepend the operations of an already-parsed prefix to a parse result. */
  function Prepend(prefix: seq<CigarOp>, r: Result<seq<CigarOp>, CigarError>): Result<seq<CigarOp>, CigarError> {
    match r
    case Success(ops) => Success(prefix + ops)
    case Failure(e) => Failure(e)
  }

  /** Digits are only ever appended to the pending count. */
  lemma {:induction false} ParseDigits(ds: string, rest: string, num: string)
    requires AllDigits(ds) && AllDigits(num)
    ensures AllDigits(num + ds)
    ensures ParseFrom(ds + rest, num) == ParseFrom(rest, num + ds)
    decreases |ds|
  {
    assert AllDigits(num + ds) by {
      forall i | 0 <= i < |num + ds| ensures IsDigit((num + ds)[i]) {
        if i < |num| { assert (num + ds)[i] == num[i]; } else { assert (num + ds)[i] == ds[i - |num|]; }
      }
    }
    if |ds| == 0 {
      assert ds + rest == rest;
      assert num + ds == num;
    } else {
      var s := ds + rest;
      assert s[0] == ds[0] && s[1..] == ds[1..] + rest;
      assert AllDigits(ds[1..]) by {
        forall i | 0 <= i < |ds| - 1 ensures IsDigit(ds[1..][i]) { assert ds[1..][i] == ds[i + 1]; }
      }
      AppendDigit(num, ds[0]);
      ParseDigits(ds[1..], rest, num + [ds[0]]);
      assert num + [ds[0]] + ds[1..] == num + ds;
    }
  }

  /** One well-formed pair in front of any text parses to its operation,
      followed by whatever the text parses to. */
  lemma ParseAfterPair(p: Pair, tail: string)
    requires WellFormedPair(p)
    ensures ParseCigar(p.count + ([p.letter] + tail)) == Prepend([PairOp(p)], ParseCigar(tail))
  {
    ParseDigits(p.count, [p.letter] + tail, []);
    assert [] + p.count == p.count;
    assert ([p.letter] + tail)[0] == p.letter && ([p.letter] + tail)[1..] == tail;
  }

  lemma PrependTwice(a: seq<CigarOp>, b: seq<CigarOp>, r: Result<seq<CigarOp>, CigarError>)
    ensures Prepend(a, Prepend(b, r)) == Prepend(a + b, r)
  {
    if r.Success? {
      assert a + (b + r.value) == a + b + r.value;
    }
  }

  /** Well-formed pairs in front of any text parse to their operations,
      followed by whatever the text parses to. */
  lemma {:induction false} ParseAfterPairs(ps: seq<Pair>, rest: string)
    requires WellFormedPairs(ps)
    ensures ParseCigar(Render(ps) + rest) == Prepend(PairOps(ps), ParseCigar(rest))
    decreases |ps|
  {
    if |ps| == 0 {
      assert Render(ps) + rest == rest;
      var r := ParseCigar(rest);
      if r.Success? {
        assert PairOps(ps) + r.value == r.value;
      }
    } else {
      var p := ps[0];
      assert WellFormedPair(p);
      var tail := Render(ps[1..]) + rest;
      assert Render(ps) + rest == p.count + ([p.letter] + tail);
      ParseAfterPair(p, tail);
      ParseAfterPairs(ps[1..], rest);
      PrependTwice([PairOp(p)], PairOps(ps[1..]), ParseCigar(rest));
    }
  }

  /** Round trip with the pair renderer: any concatenation of well-formed
      count-and-letter pairs, optionally followed by digits with no letter,
      parses to exactly the pairs' operations in order. */
  lemma ParseRendered(ps: seq<Pair>, ds: string)
    requires WellFormedPairs(ps) && AllDigits(ds)
    ensures ParseCigar(Render(ps) + ds) == Success(PairOps(ps))
  {
    ParseAfterPairs(ps, ds);
    assert ds + [] == ds;
    ParseDigits(ds, [], []);
    assert ParseCigar(ds) == Success([]);
    assert PairOps(ps) + [] == PairOps(ps);
  }

  /** Digits at the end of the input, not followed by a letter, are
      silently dropped, whatever comes before them. */
  lemma {:induction false} TrailingDigitsDropped(s: string, ds: string, num: string)
    requires AllDigits(ds) && AllDigits(num)
    ensures ParseFrom(s + ds, num) == ParseFrom(s, num)
    decreases |s|
  {
    if |s| == 0 {
      assert s + ds == ds + [];
      ParseDigits(ds, [], num);
    } else {
      assert (s + ds)[0] == s[0] && (s + ds)[1..] == s[1..] + ds;
      if IsDigit(s[0]) {
        AppendDigit(num, s[0]);
        TrailingDigitsDropped(s[1..], ds, num + [s[0]]);
      } else {
        TrailingDigitsDropped(s[1..], ds, []);
      }
    }
  }

  /** The error cases: after well-formed pairs, a non-digit whose pending
      count is empty or above U64_MAX is an invalid count (checked first),
      and a non-digit outside `= X I D` after a valid count is an unknown
      operator. */
  lemma ParseBadPair(ps: seq<Pair>, ds: string, c: char, rest: string)
    requires WellFormedPairs(ps) && AllDigits(ds) && !IsDigit(c)
    ensures ParseU64(ds).None? ==>
              ParseCigar(Render(ps) + ds + [c] + rest) == Failure(InvalidCount)
    ensures ParseU64(ds).Some? && !IsOpLetter(c) ==>
              ParseCigar(Render(ps) + ds + [c] + rest) == Failure(UnknownOperator(c))
  {
    var tail := ds + ([c] + rest);
    assert Render(ps) + ds + [c] + rest == Render(ps) + tail;
    ParseAfterPairs(ps, tail);
    ParseBadPairAtFront(ds, c, rest);
    var r := ParseCigar(tail);
    assert r.Failure? ==> Prepend(PairOps(ps), r) == r;
  }

  lemma ParseBadPairAtFront(ds: string, c: char, rest: string)
    requires AllDigits(ds) && !IsDigit(c)
    ensures ParseU64(ds).None? ==> ParseCigar(ds + ([c] + rest)) == Failure(InvalidCount)
    ensures ParseU64(ds).Some? && !IsOpLetter(c) ==>
              ParseCigar(ds + ([c] + rest)) == Failure(UnknownOperator(c))
  {
    ParseDigits(ds, [c] + rest, []);
    assert [] + ds == ds;
    assert ([c] + rest)[0] == c;
  }

  /** One pair in front of well-formed pairs. */
  lemma ConsPair(p: Pair, rest: seq<Pair>, ds: string)
    requires WellFormedPair(p) && WellFormedPairs(rest)
    ensures WellFormedPairs([p] + rest)
    ensures PairOps([p] + rest) == [PairOp(p)] + PairOps(rest)
    ensures Render([p] + rest) + ds == p.count + [p.letter] + (Render(rest) + ds)
  {
    var ps := [p] + rest;
    assert ps[0] == p && ps[1..] == rest;
    assert WellFormedPairs(ps) by {
      forall i | 0 <= i < |ps| ensures WellFormedPair(ps[i]) {
        if i > 0 { assert ps[i] == rest[i - 1]; }
      }
    }
  }

  /** What the scan does at a digit: it only extends the pending count. */
  lemma ParseFromAtDigit(s: string, num: string)
    requires AllDigits(num) && 0 < |s| && IsDigit(s[0])
    ensures AllDigits(num + [s[0]])
    ensures ParseFrom(s, num) == ParseFrom(s[1..], num + [s[0]])
  {
    AppendDigit(num, s[0]);
  }

  /** What a successful scan does at a non-digit character. */
  lemma ParseFromAtLetter(s: string, num: string)
    requires AllDigits(num) && 0 < |s| && !IsDigit(s[0]) && ParseFrom(s, num).Success?
    ensures ParseU64(num).Some? && IsOpLetter(s[0]) && ParseFrom(s[1..], []).Success?
    ensures ParseFrom(s, num).value == [OpFor(s[0], ParseU64(num).value)] + ParseFrom(s[1..], []).value
  {
  }

  /** Converse of `ParseRendered`: every accepted text is a concatenation of
      well-formed pairs, followed by dropped digits, and its operations are
      those of the pairs.  Stated for the scan with pending digits `num`. */
  lemma {:induction false} ParseFromSound(s: string, num: string) returns (ps: seq<Pair>, ds: string)
    requires AllDigits(num) && ParseFrom(s, num).Success?
    ensures WellFormedPairs(ps) && AllDigits(ds)
    ensures num + s == Render(ps) + ds
    ensures ParseFrom(s, num).value == PairOps(ps)
    decreases |s|
  {
    if |s| == 0 {
      ps, ds := [], num;
      assert num + s == num;
    } else if IsDigit(s[0]) {
      ParseFromAtDigit(s, num);
      ps, ds := ParseFromSound(s[1..], num + [s[0]]);
      assert num + s == num + [s[0]] + s[1..];
    } else {
      ParseFromAtLetter(s, num);
      var rest, ds' := ParseFromSound(s[1..], []);
      assert [] + s[1..] == s[1..];
      ps, ds := SoundAtLetter(num, s[0], s[1..], rest, ds');
      assert [s[0]] + s[1..] == s;
    }
  }

  /** The step of `ParseFromSound` at a non-digit: the pending digits and
      the letter become one more pair in front of the pairs of the rest. */
  lemma SoundAtLetter(num: string, c: char, tail: string, rest: seq<Pair>, ds': string)
    returns (ps: seq<Pair>, ds: string)
    requires AllDigits(num) && ParseU64(num).Some? && IsOpLetter(c)
    requires WellFormedPairs(rest) && AllDigits(ds') && tail == Render(rest) + ds'
    ensures WellFormedPairs(ps) && AllDigits(ds)
    ensures num + ([c] + tail) == Render(ps) + ds
    ensures [OpFor(c, ParseU64(num).value)] + PairOps(rest) == PairOps(ps)
  {
    var p := Pair(num, c);
    assert WellFormedPair(p);
    ConsPair(p, rest, ds');
    ps, ds := [p] + rest, ds';
    assert num + ([c] + tail) == num + [c] + (Render(rest) + ds');
  }

  /** Every accepted CIGAR text is well-formed pairs plus dropped digits. */
  lemma ParseCigarSound(s: string) returns (ps: seq<Pair>, ds: string)
    requires ParseCigar(s).Success?
    ensures WellFormedPairs(ps) && AllDigits(ds)
    ensures s == Render(ps) + ds
    ensures ParseCigar(s).value == PairOps(ps)
  {
    ps, ds := ParseFromSound(s, []);
    assert [] + s == s;
  }

  /** The canonical pairs of operations are well formed and denote them. */
  lemma {:induction false} CanonicalPairsDenote(ops: seq<CigarOp>)
    ensures WellFormedPairs(CanonicalPairs(ops))
    ensures PairOps(CanonicalPairs(ops)) == ops
    decreases |ops|
  {
    if |ops| > 0 {
      var ps := CanonicalPairs(ops);
      CanonicalPairsDenote(ops[1..]);
      ParseU64ShowNat(ops[0].len as nat);
      assert ps[1..] == CanonicalPairs(ops[1..]);
      assert WellFormedPairs(ps) by {
        forall i | 0 <= i < |ps| ensures WellFormedPair(ps[i]) {
          if i > 0 { assert ps[i] == ps[1..][i - 1]; }
        }
      }
      assert PairOp(ps[0]) == ops[0] by {
        match ops[0]
        case Match(_) =>
        case Mismatch(_) =>
        case Insertion(_) =>
        case Deletion(_) =>
      }
      assert ops == [ops[0]] + ops[1..];
    }
  }

  /** Round trip with the printer: printing any operations and parsing the
      text gives the operations back. */
  lemma ParsePrint(ops: seq<CigarOp>)
    ensures ParseCigar(Print(ops)) == Success(ops)
  {
    CanonicalPairsDenote(ops);
    ParseRendered(CanonicalPairs(ops), []);
    assert Print(ops) + [] == Print(ops);
  }
}
