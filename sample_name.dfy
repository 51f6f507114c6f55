/**
 * Deriving a sample name from one FASTQ file, or from the two files of a
 * paired-end sample whose names differ only in the mate number.
 */
module SampleNames {
  import opened Wrappers
  import opened Paths

  datatype NameError =
    | NotFastq(path: string)   // the path lacks a FASTQ extension
    | LengthsDiffer            // the two stems have different lengths
    | NotOneDifference         // the two stems differ at zero or several positions
    | NotMateLabels            // the one differing position is not '1' in file 1 and '2' in file 2

  /**
   * Every separator joined to every keyword, in the order itertools.product
   * yields the pairs: separator by separator, each with every keyword in
   * turn (the empty join at the end is never tried).
   */
  const MatePrefixes: seq<string> := [
    "_read", "_r", "_mate", "_m", "_pair", "_p", "_",
    "-read", "-r", "-mate", "-m", "-pair", "-p", "-",
    "read", "r", "mate", "m", "pair", "p", ""]

  /**
   * Lower-casing of ASCII letters. Python's str.lower also maps other
   * characters, but only two outside A-Z lower to ASCII (U+0130 to two
   * characters, U+212A to 'k'), and neither can make a slice equal one of
   * the prefixes, so the comparison below is the same.
   */
  function LowerChar(c: char): char
  {
    if 'A' <= c <= 'Z' then (c as int + 32) as char else c
  }

  function Lower(s: string): (r: string)
    ensures |r| == |s|
  {
    seq(|s|, k requires 0 <= k < |s| => LowerChar(s[k]))
  }

  /** Whether the nonempty `pfx` stands, in any case, just before position `pos` of `name`. */
  predicate PrefixAt(name: string, pos: nat, pfx: string)
  {
    |pfx| > 0 && |pfx| <= pos <= |name| && Lower(name[pos - |pfx|..pos]) == pfx
  }

  /** The index of the first of `cands[k..]` that stands before `pos`, if any does. */
  function FirstMatch(name: string, pos: nat, cands: seq<string>, k: nat): (r: Option<nat>)
    requires k <= |cands|
    ensures r.Some? ==>
      && k <= r.value < |cands|
      && PrefixAt(name, pos, cands[r.value])
      && forall j | k <= j < r.value :: !PrefixAt(name, pos, cands[j])
    ensures r.None? ==> forall j | k <= j < |cands| :: !PrefixAt(name, pos, cands[j])
    decreases |cands| - k
  {
    if k == |cands| then None
    else if PrefixAt(name, pos, cands[k]) then Some(k)
    else FirstMatch(name, pos, cands, k + 1)
  }

  /** Where the cut ends up starting: before the first matching prefix, or at the digit. */
  function CutStart(name: string, pos: nat): (start: nat)
    requires pos < |name|
    ensures start <= pos
    ensures start == pos <==> forall j | 0 <= j < |MatePrefixes| :: !PrefixAt(name, pos, MatePrefixes[j])
    ensures start < pos ==> Lower(name[start..pos]) in MatePrefixes
  {
    match FirstMatch(name, pos, MatePrefixes, 0)
    case Some(j) => pos - |MatePrefixes[j]|
    case None => pos
  }

  /** `name` without the mate digit at `pos` and the first prefix that stands before it. */
  function CutMateLabel(name: string, pos: nat): (r: string)
    requires pos < |name|
    ensures |r| == |name| - (pos + 1 - CutStart(name, pos)) && |r| < |name|
    ensures r[..CutStart(name, pos)] == name[..CutStart(name, pos)]
    ensures r[CutStart(name, pos)..] == name[pos + 1..]
  {
    name[..CutStart(name, pos)] + name[pos + 1..]
  }

  /** The positions from `k` on where `a` and `b` differ, in increasing order. */
  function DiffPositions(a: string, b: string, k: nat): (d: seq<nat>)
    requires |a| == |b| && k <= |a|
    ensures forall i :: i in d <==> k <= i < |a| && a[i] != b[i]
    ensures forall i, j | 0 <= i < j < |d| :: d[i] < d[j]
    ensures forall i | 0 <= i < |d| :: k <= d[i]
    decreases |a| - k
  {
    if k == |a| then []
    else if a[k] != b[k] then [k] + DiffPositions(a, b, k + 1)
    else DiffPositions(a, b, k + 1)
  }

  /** The sample name of `fastq1`, paired with `fastq2` when there is one. */
  function SampleName(fastq1: string, fastq2: Option<string>): (r: Result<string, NameError>)
    ensures fastq2.Some? && r.Success? ==> |r.value| < |Stem(fastq1)|
    decreases if fastq2.Some? then 1 else 0
  {
    if !HasFastqExtension(fastq1) then Failure(NotFastq(fastq1))
    else
      var name1 := Stem(fastq1);
      match fastq2
      case None => Success(name1)
      case Some(f2) =>
        match SampleName(f2, None)
        case Failure(e) => Failure(e)
        case Success(name2) => PairedName(name1, name2)
  }

  /** The checks on the stems of a pair, in order, and the name they give. */
  function PairedName(name1: string, name2: string): (r: Result<string, NameError>)
    ensures r == Failure(LengthsDiffer) <==> |name1| != |name2|
    ensures r.Success? ==> |name1| == |name2| && |r.value| < |name1|
  {
    if |name1| != |name2| then Failure(LengthsDiffer)
    else
      var diff := DiffPositions(name1, name2, 0);
      if |diff| != 1 then Failure(NotOneDifference)
      else
        var pos := diff[0];
        assert pos in diff;
        if name1[pos] == '1' && name2[pos] == '2' then Success(CutMateLabel(name1, pos))
        else Failure(NotMateLabels)
  }

  /** `a` and `b` differ at `pos` and nowhere else. */
  predicate OnlyDifference(a: string, b: string, pos: nat)
  {
    |a| == |b| && pos < |a| && a[pos] != b[pos] &&
    forall q | 0 <= q < |a| && q != pos :: a[q] == b[q]
  }

  /** Two stems name a valid pair: the same length, and one differing position, holding '1' and '2'. */
  predicate MateStems(name1: string, name2: string)
  {
    exists pos | 0 <= pos < |name1| :: OnlyDifference(name1, name2, pos) && name1[pos] == '1' && name2[pos] == '2'
  }

  /** When `a` and `b` differ only at `pos`, the difference list is that one position. */
  lemma {:induction false} DiffOfOnly(a: string, b: string, pos: nat, k: nat)
    requires OnlyDifference(a, b, pos) && k <= |a|
    ensures DiffPositions(a, b, k) == if k <= pos then [pos] else []
    decreases |a| - k
  {
    if k < |a| {
      DiffOfOnly(a, b, pos, k + 1);
    }
  }

  /** The difference list has one entry exactly when the strings differ at one position. */
  lemma OneDiffPosition(a: string, b: string)
    requires |a| == |b|
    ensures var d := DiffPositions(a, b, 0);
      |d| == 1 <==> exists pos | 0 <= pos < |a| :: OnlyDifference(a, b, pos)
    ensures var d := DiffPositions(a, b, 0);
      |d| == 1 ==> OnlyDifference(a, b, d[0])
  {
    var d := DiffPositions(a, b, 0);
    if pos :| 0 <= pos < |a| && OnlyDifference(a, b, pos) {
      DiffOfOnly(a, b, pos, 0);
    }
    if |d| == 1 {
      assert d[0] in d;
      assert OnlyDifference(a, b, d[0]);
    }
  }

  /**
   * A single file names its sample by its base name with the FASTQ
   * extension `ext` cut off (unless only dots would remain); without a
   * FASTQ extension it is refused.
   */
  lemma SingleFileName(fastq: string, ext: string)
    ensures SampleName(fastq, None).Success? <==> HasFastqExtension(fastq)
    ensures ext in FastqExtensions && EndsWith(fastq, ext) ==>
      var b := Basename(fastq);
      !AllDots(b[..|b| - |ext|]) ==> SampleName(fastq, None).value + ext == b
  {
    if ext in FastqExtensions && EndsWith(fastq, ext) {
      StemDropsExtension(fastq, ext);
    }
  }

  /**
   * The errors of a pair, in the order they are checked: an extension
   * missing from file 1, then from file 2, stems of different lengths, not
   * exactly one differing position, and wrong mate digits there. A pair
   * passes all checks exactly when its stems are mates.
   */
  lemma PairErrors(fastq1: string, fastq2: string)
    ensures var r := SampleName(fastq1, Some(fastq2));
      && (!HasFastqExtension(fastq1) ==> r == Failure(NotFastq(fastq1)))
      && (HasFastqExtension(fastq1) && !HasFastqExtension(fastq2) ==> r == Failure(NotFastq(fastq2)))
      && (HasFastqExtension(fastq1) && HasFastqExtension(fastq2) ==>
            var n1, n2 := Stem(fastq1), Stem(fastq2);
            && (|n1| != |n2| ==> r == Failure(LengthsDiffer))
            && (|n1| == |n2| && !(exists pos | 0 <= pos < |n1| :: OnlyDifference(n1, n2, pos)) ==>
                  r == Failure(NotOneDifference))
            && (r.Success? <==> MateStems(n1, n2))
            && (r.Failure? && (exists pos | 0 <= pos < |n1| :: OnlyDifference(n1, n2, pos)) ==>
                  r == Failure(NotMateLabels)))
  {
    if HasFastqExtension(fastq1) && HasFastqExtension(fastq2) {
      PairName(fastq1, fastq2);
      StemPairErrors(Stem(fastq1), Stem(fastq2));
    }
  }

  /** The checks on two stems fail in order, and pass exactly when the stems are mates. */
  lemma StemPairErrors(n1: string, n2: string)
    ensures var r := PairedName(n1, n2);
      && (|n1| != |n2| ==> r == Failure(LengthsDiffer))
      && (|n1| == |n2| && !(exists pos | 0 <= pos < |n1| :: OnlyDifference(n1, n2, pos)) ==>
            r == Failure(NotOneDifference))
      && (r.Success? <==> MateStems(n1, n2))
      && (r.Failure? && (exists pos | 0 <= pos < |n1| :: OnlyDifference(n1, n2, pos)) ==>
            r == Failure(NotMateLabels))
  {
    if |n1| == |n2| {
      OneDiffPosition(n1, n2);
      var d := DiffPositions(n1, n2, 0);
      if MateStems(n1, n2) {
        var pos :| 0 <= pos < |n1| && OnlyDifference(n1, n2, pos) && n1[pos] == '1' && n2[pos] == '2';
        assert pos in d;
      }
    }
  }

  /**
   * The cut starts before the first candidate, in product order, that
   * stands before the digit, or at the digit when none does; the first
   * match is taken, not the longest.
   */
  lemma CutStartIsFirstMatch(name: string, pos: nat)
    requires pos < |name|
    ensures (exists j | 0 <= j < |MatePrefixes| :: PrefixAt(name, pos, MatePrefixes[j])) ==>
      exists j | 0 <= j < |MatePrefixes| ::
        && PrefixAt(name, pos, MatePrefixes[j])
        && (forall i | 0 <= i < j :: !PrefixAt(name, pos, MatePrefixes[i]))
        && CutStart(name, pos) == pos - |MatePrefixes[j]|
        && Lower(name[CutStart(name, pos)..pos]) == MatePrefixes[j]
    ensures (forall j | 0 <= j < |MatePrefixes| :: !PrefixAt(name, pos, MatePrefixes[j])) ==>
      CutStart(name, pos) == pos
  {
    var m := FirstMatch(name, pos, MatePrefixes, 0);
    if m.Some? {
      var j := m.value;
      assert CutStart(name, pos) == pos - |MatePrefixes[j]|;
    }
  }

  /**
   * Cutting the same span, ending at the one differing position, out of
   * two strings that differ only there gives the same string, and putting
   * the span back restores the first.
   */
  lemma CutAgrees(name1: string, name2: string, pos: nat, start: nat)
    requires OnlyDifference(name1, name2, pos) && start <= pos
    ensures var r := name1[..start] + name1[pos + 1..];
      && r == name2[..start] + name2[pos + 1..]
      && name1 == r[..start] + name1[start..pos + 1] + r[start..]
      && |r| == |name1| - (pos + 1 - start)
  {
    var r := name1[..start] + name1[pos + 1..];
    assert name1[..start] == name2[..start];
    assert name1[pos + 1..] == name2[pos + 1..];
    assert r[..start] == name1[..start];
    assert r[start..] == name1[pos + 1..];
    assert name1 == name1[..start] + name1[start..pos + 1] + name1[pos + 1..];
  }

  /**
   * Mate stems name their sample by stem 1 with the digit and the prefix
   * before it cut out. Since the stems agree everywhere else, cutting stem
   * 2 the same way gives the same name, and putting the cut piece back
   * gives stem 1 again.
   */
  lemma MateStemsName(name1: string, name2: string, pos: nat)
    requires OnlyDifference(name1, name2, pos) && name1[pos] == '1' && name2[pos] == '2'
    ensures var start := CutStart(name1, pos);
      var r := name1[..start] + name1[pos + 1..];
      && PairedName(name1, name2) == Success(r)
      && r == name2[..start] + name2[pos + 1..]
      && name1 == r[..start] + name1[start..pos + 1] + r[start..]
      && |r| == |name1| - (pos + 1 - start)
  {
    DiffOfOnly(name1, name2, pos, 0);
    CutAgrees(name1, name2, pos, CutStart(name1, pos));
  }

  /** A pair of FASTQ paths whose stems are mates is named as its stems are. */
  lemma PairName(fastq1: string, fastq2: string)
    requires HasFastqExtension(fastq1) && HasFastqExtension(fastq2)
    ensures SampleName(fastq1, Some(fastq2)) == PairedName(Stem(fastq1), Stem(fastq2))
  {
    assert SampleName(fastq2, None) == Success(Stem(fastq2));
  }
}
