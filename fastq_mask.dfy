/**
 * Quality masking of a FASTQ file: every base whose quality byte is below
 * the minimum code is replaced by 'N', record by record, in one pass.
 */
module FastqMask {
  import opened Lines

  /** The byte that replaces a low-quality base: 'N'. */
  const BaseN: byte := 78

  function Min(a: int, b: int): int
  {
    if a <= b then a else b
  }

  /** One base survives if its quality reaches `minCode` or it is the newline. */
  function MaskBase(base: byte, qual: byte, minCode: int): (b: byte)
    ensures b == base || b == BaseN
    ensures b == base <==> qual >= minCode || base == NL || base == BaseN
  {
    if qual >= minCode || base == NL then base else BaseN
  }

  /** A sequence line masked against its quality line. */
  function MaskBases(bases: Bytes, quals: Bytes, minCode: int): (masked: Bytes)
    requires |bases| == |quals|
    ensures |masked| == |bases|
  {
    seq(|bases|, k requires 0 <= k < |bases| => MaskBase(bases[k], quals[k], minCode))
  }

  /**
   * A masked base equals the input base exactly when its quality reaches
   * the minimum, it is the newline, or it already was 'N'; any base that
   * changes becomes 'N'. Newlines stay exactly where they were.
   */
  lemma MaskedBases(bases: Bytes, quals: Bytes, minCode: int)
    requires |bases| == |quals|
    ensures var m := MaskBases(bases, quals, minCode);
      forall k | 0 <= k < |bases| ::
        && (m[k] == bases[k] <==> quals[k] >= minCode || bases[k] == NL || bases[k] == BaseN)
        && (m[k] != bases[k] ==> m[k] == BaseN)
        && (m[k] == NL <==> bases[k] == NL)
  {
  }

  /** Masking masked bases again, with the same or a lower minimum, changes nothing. */
  lemma MaskBasesIdempotent(bases: Bytes, quals: Bytes, minCode: int, minCode2: int)
    requires |bases| == |quals| && minCode2 <= minCode
    ensures MaskBases(MaskBases(bases, quals, minCode), quals, minCode2) == MaskBases(bases, quals, minCode)
  {
  }

  /** The outcome of masking: the lines written, and whether the pass finished. */
  datatype MaskOutcome = MaskOutcome(out: seq<Bytes>, ok: bool)

  /**
   * The lines written for the record whose header is line `i`: header,
   * masked bases, '+' line and qualities, as many of them as the file has.
   */
  function RecordLines(lines: seq<Bytes>, i: nat, minCode: int): (rec: seq<Bytes>)
    requires i < |lines| && |LineAt(lines, i + 1)| == |LineAt(lines, i + 3)|
    ensures |rec| == Min(4, |lines| - i) && i + |rec| <= |lines|
    ensures rec[0] == lines[i]
  {
    var bases, quals := LineAt(lines, i + 1), LineAt(lines, i + 3);
    [lines[i], MaskBases(bases, quals, minCode), LineAt(lines, i + 2), quals][..Min(4, |lines| - i)]
  }

  /**
   * Masking the records from line `i` on. A record whose sequence and
   * quality lines differ in length stops the pass; what was written before
   * it stays written.
   */
  function MaskFrom(lines: seq<Bytes>, i: nat, minCode: int): (r: MaskOutcome)
    requires i <= |lines|
    ensures i + |r.out| <= |lines|
    ensures r.ok ==> i + |r.out| == |lines|
    decreases |lines| - i
  {
    if i == |lines| then MaskOutcome([], true)
    else if |LineAt(lines, i + 1)| != |LineAt(lines, i + 3)| then MaskOutcome([], false)
    else
      var rest := MaskFrom(lines, Min(i + 4, |lines|), minCode);
      MaskOutcome(RecordLines(lines, i, minCode) + rest.out, rest.ok)
  }

  /** Masking a whole file, read as lines. */
  function MaskFile(content: Bytes, minCode: int): (r: MaskOutcome)
    ensures |r.out| <= |SplitLines(content)|
    ensures r.ok ==> |r.out| == |SplitLines(content)|
  {
    MaskFrom(SplitLines(content), 0, minCode)
  }

  /** The bytes written for a record are its four lines, the missing ones empty. */
  lemma RecordBytes(lines: seq<Bytes>, i: nat, minCode: int)
    requires i < |lines| && |LineAt(lines, i + 1)| == |LineAt(lines, i + 3)|
    ensures var bases, quals := LineAt(lines, i + 1), LineAt(lines, i + 3);
      Flatten(RecordLines(lines, i, minCode)) ==
        lines[i] + MaskBases(bases, quals, minCode) + LineAt(lines, i + 2) + quals
  {
    var a, b, c, d := lines[i], MaskBases(LineAt(lines, i + 1), LineAt(lines, i + 3), minCode), LineAt(lines, i + 2), LineAt(lines, i + 3);
    FlattenShort(a, b, c, d);
    var n := Min(4, |lines| - i);
    var four := [a, b, c, d];
    if n == 1 {
      assert four[..1] == [a];
      assert b == [] && c == [] && d == [];
    } else if n == 2 {
      assert four[..2] == [a, b];
      assert c == [] && d == [];
    } else if n == 3 {
      assert four[..3] == [a, b, c];
      assert d == [];
    } else {
      assert four[..4] == four;
    }
  }

  /** Rebuilding one record in a buffer: the header, the masked bases, the '+' line and the qualities. */
  method MaskRecord(header: Bytes, bases: Bytes, qualHeader: Bytes, quals: Bytes, minCode: int)
    returns (masked: Bytes)
    requires |bases| == |quals|
    ensures masked == header + MaskBases(bases, quals, minCode) + qualHeader + quals
  {
    masked := header;
    for k := 0 to |bases|
      invariant |masked| == |header| + k
      invariant masked[..|header|] == header
      invariant forall m | 0 <= m < k :: masked[|header| + m] == MaskBase(bases[m], quals[m], minCode)
    {
      masked := masked + [if quals[k] >= minCode || bases[k] == NL then bases[k] else BaseN];
    }
    assert masked == header + MaskBases(bases, quals, minCode);
    masked := masked + qualHeader + quals;
  }

  /** The lines `done` written so far, followed by masking from line `i`, make up the whole pass. */
  ghost predicate MaskedSoFar(lines: seq<Bytes>, i: nat, done: seq<Bytes>, minCode: int)
    requires i <= |lines|
  {
    MaskFrom(lines, 0, minCode) == MaskOutcome(done + MaskFrom(lines, i, minCode).out, MaskFrom(lines, i, minCode).ok)
  }

  lemma MaskStep(lines: seq<Bytes>, i: nat, done: seq<Bytes>, minCode: int)
    requires i < |lines| && |LineAt(lines, i + 1)| == |LineAt(lines, i + 3)|
    requires MaskedSoFar(lines, i, done, minCode)
    ensures MaskedSoFar(lines, Min(i + 4, |lines|), done + RecordLines(lines, i, minCode), minCode)
    ensures var bases, quals := LineAt(lines, i + 1), LineAt(lines, i + 3);
      Flatten(done + RecordLines(lines, i, minCode)) ==
        Flatten(done) + (lines[i] + MaskBases(bases, quals, minCode) + LineAt(lines, i + 2) + quals)
  {
    RecordBytes(lines, i, minCode);
    FlattenAppend(done, RecordLines(lines, i, minCode));
    var rest := MaskFrom(lines, Min(i + 4, |lines|), minCode);
    assert MaskFrom(lines, i, minCode).out == RecordLines(lines, i, minCode) + rest.out;
    assert done + (RecordLines(lines, i, minCode) + rest.out) == done + RecordLines(lines, i, minCode) + rest.out;
  }

  lemma MaskStops(lines: seq<Bytes>, i: nat, done: seq<Bytes>, minCode: int)
    requires i <= |lines| && MaskedSoFar(lines, i, done, minCode)
    requires i == |lines| || |LineAt(lines, i + 1)| != |LineAt(lines, i + 3)|
    ensures MaskFrom(lines, 0, minCode) == MaskOutcome(done, i == |lines|)
  {
    assert done + [] == done;
  }

  /**
   * The loop of _mask over the lines of the input: each record is a header
   * line followed by three readline calls (the empty line past the end),
   * rebuilt with its low-quality bases masked and written. Returns the
   * bytes written and whether the pass finished; false stands for the
   * error raised when a sequence and its qualities differ in length.
   */
  method MaskLines(lines: seq<Bytes>, minCode: int) returns (written: Bytes, ok: bool)
    ensures written == Flatten(MaskFrom(lines, 0, minCode).out)
    ensures ok == MaskFrom(lines, 0, minCode).ok
  {
    written := [];
    ghost var done: seq<Bytes> := [];
    var i := 0;
    while i < |lines|
      invariant 0 <= i <= |lines|
      invariant written == Flatten(done)
      invariant MaskedSoFar(lines, i, done, minCode)
      decreases |lines| - i
    {
      var header := lines[i];
      var bases := LineAt(lines, i + 1);
      var qualHeader := LineAt(lines, i + 2);
      var quals := LineAt(lines, i + 3);
      if |bases| != |quals| {
        MaskStops(lines, i, done, minCode);
        return written, false;
      }
      var masked := MaskRecord(header, bases, qualHeader, quals, minCode);
      MaskStep(lines, i, done, minCode);
      written := written + masked;
      done := done + RecordLines(lines, i, minCode);
      i := Min(i + 4, |lines|);
    }
    MaskStops(lines, i, done, minCode);
    ok := true;
  }

  /** _mask on a whole file: the input read as lines, masked at quality `minQual` in the given encoding. */
  method Mask(content: Bytes, minQual: int, encoding: int) returns (written: Bytes, ok: bool)
    ensures written == Flatten(MaskFile(content, minQual + encoding).out)
    ensures ok == MaskFile(content, minQual + encoding).ok
  {
    var minCode := minQual + encoding;
    var lines := SplitLines(content);
    assert MaskFile(content, minCode) == MaskFrom(lines, 0, minCode);
    written, ok := MaskLines(lines, minCode);
  }

  /** The record with header line `j` has as many quality bytes as bases. */
  predicate LengthsMatch(lines: seq<Bytes>, j: nat)
  {
    |LineAt(lines, j + 1)| == |LineAt(lines, j + 3)|
  }

  /**
   * Line `j` of the input as it is written: a sequence line (the second of
   * its record) masked against the quality line two below it, any other
   * line unchanged.
   */
  function MaskedLine(lines: seq<Bytes>, j: nat, minCode: int): Bytes
    requires j < |lines|
  {
    if j % 4 == 1 && |lines[j]| == |LineAt(lines, j + 2)| then MaskBases(lines[j], LineAt(lines, j + 2), minCode)
    else lines[j]
  }

  lemma RecordLinesAt(lines: seq<Bytes>, i: nat, minCode: int)
    requires i < |lines| && i % 4 == 0 && LengthsMatch(lines, i)
    ensures var rec := RecordLines(lines, i, minCode);
      |rec| == Min(4, |lines| - i) && forall k | 0 <= k < |rec| :: rec[k] == MaskedLine(lines, i + k, minCode)
  {
    var rec := RecordLines(lines, i, minCode);
    forall k | 0 <= k < |rec|
      ensures rec[k] == MaskedLine(lines, i + k, minCode)
    {
      assert (i + k) % 4 == k;
    }
  }

  lemma MaskedConcat(lines: seq<Bytes>, i: nat, a: seq<Bytes>, j: nat, b: seq<Bytes>, minCode: int)
    requires j == i + |a| && j + |b| <= |lines|
    requires forall k | 0 <= k < |a| :: a[k] == MaskedLine(lines, i + k, minCode)
    requires forall k | 0 <= k < |b| :: b[k] == MaskedLine(lines, j + k, minCode)
    ensures forall k | 0 <= k < |a + b| :: (a + b)[k] == MaskedLine(lines, i + k, minCode)
  {
    forall k | |a| <= k < |a + b|
      ensures (a + b)[k] == MaskedLine(lines, i + k, minCode)
    {
      assert (a + b)[k] == b[k - |a|];
    }
  }

  /**
   * What masking from record `i` on writes: the input lines from `i` with
   * every sequence line masked, all of them when the pass finishes, and
   * otherwise up to the record whose sequence and quality lengths differ.
   */
  lemma {:induction false} MaskFromLines(lines: seq<Bytes>, i: nat, minCode: int)
    requires i <= |lines| && (i % 4 == 0 || i == |lines|)
    ensures var r := MaskFrom(lines, i, minCode);
      && i + |r.out| <= |lines|
      && (forall k | 0 <= k < |r.out| :: r.out[k] == MaskedLine(lines, i + k, minCode))
      && (r.ok ==> i + |r.out| == |lines|)
      && (!r.ok ==> (i + |r.out|) % 4 == 0 && i + |r.out| < |lines| && !LengthsMatch(lines, i + |r.out|))
    decreases |lines| - i
  {
    var r := MaskFrom(lines, i, minCode);
    if i == |lines| {
    } else if !LengthsMatch(lines, i) {
      assert r.out == [];
    } else {
      var next := Min(i + 4, |lines|);
      MaskFromLines(lines, next, minCode);
      RecordLinesAt(lines, i, minCode);
      var rec := RecordLines(lines, i, minCode);
      var rest := MaskFrom(lines, next, minCode);
      assert r.out == rec + rest.out && r.ok == rest.ok;
      assert i + |rec| == next;
      MaskedConcat(lines, i, rec, next, rest.out, minCode);
    }
  }

  /** The pass from record `i` on finishes exactly when every record from `i` on has as many quality bytes as bases. */
  lemma {:induction false} MaskFromOk(lines: seq<Bytes>, i: nat, minCode: int)
    requires i <= |lines| && (i % 4 == 0 || i == |lines|)
    ensures MaskFrom(lines, i, minCode).ok <==> forall j | i <= j < |lines| && j % 4 == 0 :: LengthsMatch(lines, j)
    decreases |lines| - i
  {
    if i < |lines| && LengthsMatch(lines, i) {
      var next := Min(i + 4, |lines|);
      MaskFromOk(lines, next, minCode);
      assert MaskFrom(lines, i, minCode).ok == MaskFrom(lines, next, minCode).ok;
      assert forall j | i <= j < |lines| && j % 4 == 0 && j != i :: next <= j;
    }
  }

  /** Masking keeps every line's length and every newline where it was. */
  lemma MaskedLineShape(lines: seq<Bytes>, j: nat, minCode: int)
    requires j < |lines|
    ensures var m := MaskedLine(lines, j, minCode);
      |m| == |lines[j]| && forall b | 0 <= b < |m| :: (m[b] == NL <==> lines[j][b] == NL)
  {
    if j % 4 == 1 && |lines[j]| == |LineAt(lines, j + 2)| {
      MaskedBases(lines[j], LineAt(lines, j + 2), minCode);
    }
  }

  /** Every record of the file has as many quality bytes as bases. */
  predicate AllMatch(lines: seq<Bytes>)
  {
    forall j | 0 <= j < |lines| && j % 4 == 0 :: LengthsMatch(lines, j)
  }

  /** The input lines with every sequence line masked: what a finished pass writes. */
  function MaskedLines(lines: seq<Bytes>, minCode: int): (out: seq<Bytes>)
    ensures |out| == |lines|
  {
    seq(|lines|, k requires 0 <= k < |lines| => MaskedLine(lines, k, minCode))
  }

  /** The masked lines are still lines a file iterator would yield: same lengths, newlines in place. */
  lemma MaskedLinesWellFormed(lines: seq<Bytes>, minCode: int)
    requires WellFormed(lines)
    ensures WellFormed(MaskedLines(lines, minCode))
  {
    var out := MaskedLines(lines, minCode);
    forall j | 0 <= j < |out|
      ensures |out[j]| == |lines[j]| && forall b | 0 <= b < |out[j]| :: (out[j][b] == NL <==> lines[j][b] == NL)
    {
      MaskedLineShape(lines, j, minCode);
    }
  }

  /** A pass over a whole file finishes exactly when every record matches, and then writes the masked lines. */
  lemma MaskFromAll(lines: seq<Bytes>, minCode: int)
    ensures MaskFrom(lines, 0, minCode).ok <==> AllMatch(lines)
    ensures AllMatch(lines) ==> MaskFrom(lines, 0, minCode).out == MaskedLines(lines, minCode)
  {
    MaskFromLines(lines, 0, minCode);
    MaskFromOk(lines, 0, minCode);
  }

  /** A line of the masked lines is left as it is when masked again with the same or a lower minimum. */
  lemma MaskedLineTwice(lines: seq<Bytes>, k: nat, minCode: int, minCode2: int)
    requires k < |lines| && minCode2 <= minCode
    ensures MaskedLine(MaskedLines(lines, minCode), k, minCode2) == MaskedLines(lines, minCode)[k]
  {
    var out := MaskedLines(lines, minCode);
    if k % 4 == 1 && k + 2 < |lines| {
      assert out[k + 2] == lines[k + 2] by {
        assert (k + 2) % 4 == 3;
      }
      if |lines[k]| == |lines[k + 2]| {
        MaskBasesIdempotent(lines[k], lines[k + 2], minCode, minCode2);
      }
    }
  }

  /** Masking the masked lines again, with the same or a lower minimum, keeps every record matching and changes nothing. */
  lemma MaskedLinesIdempotent(lines: seq<Bytes>, minCode: int, minCode2: int)
    requires AllMatch(lines) && minCode2 <= minCode
    ensures AllMatch(MaskedLines(lines, minCode))
    ensures MaskedLines(MaskedLines(lines, minCode), minCode2) == MaskedLines(lines, minCode)
  {
    var out := MaskedLines(lines, minCode);
    forall j | 0 <= j < |out| && j % 4 == 0
      ensures LengthsMatch(out, j)
    {
      assert LengthsMatch(lines, j);
      if j + 1 < |out| {
        MaskedLineShape(lines, j + 1, minCode);
      }
    }
    forall k | 0 <= k < |out|
      ensures MaskedLines(out, minCode2)[k] == out[k]
    {
      MaskedLineTwice(lines, k, minCode, minCode2);
    }
  }

  /**
   * Masking a file that a finished pass wrote, with the same or a lower
   * minimum quality, finishes too and writes exactly the same bytes.
   */
  lemma MaskFileIdempotent(content: Bytes, minCode: int, minCode2: int)
    requires MaskFile(content, minCode).ok && minCode2 <= minCode
    ensures MaskFile(Flatten(MaskFile(content, minCode).out), minCode2) == MaskFile(content, minCode)
  {
    var lines := SplitLines(content);
    var out := MaskFrom(lines, 0, minCode).out;
    MaskFromAll(lines, minCode);
    MaskedLinesWellFormed(lines, minCode);
    SplitFlatten(out);
    MaskedLinesIdempotent(lines, minCode, minCode2);
    MaskFromAll(out, minCode2);
  }

  /** An empty file masks to an empty file. */
  lemma MaskNothing(minCode: int)
    ensures MaskFile([], minCode) == MaskOutcome([], true)
  {
  }
}
