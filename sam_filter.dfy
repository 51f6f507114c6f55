/**
 * Removing reads that align equally well to more than one place: the SAM
 * header is copied, then each read (each pair of mates for paired-end
 * data) is kept when its alignment score AS is higher than the score XS of
 * its best other alignment, or when it has no other alignment.
 */
module SamFilter {
  import opened Wrappers
  import opened Lines

  /** b"@"[0]: the first byte of every header line. */
  const HeaderByte: byte := 64

  /** b"AS:i:" */
  const AlignTag: Bytes := [65, 83, 58, 105, 58]

  /** b"XS:i:" */
  const ExtraTag: Bytes := [88, 83, 58, 105, 58]

  predicate IsDigit(b: byte)
  {
    48 <= b <= 57
  }

  /** line.startswith(b"@") */
  predicate IsHeader(line: Bytes)
  {
    |line| > 0 && line[0] == HeaderByte
  }

  // ---------------------------------------------------------------------
  // Reading a score: the search for `tag` followed by one or more digits
  // ---------------------------------------------------------------------

  /** The pattern tag(\d+) matches at position `q`: the tag, then at least one digit. */
  predicate MatchAt(line: Bytes, tag: Bytes, q: nat)
  {
    q + |tag| < |line| && line[q..q + |tag|] == tag && IsDigit(line[q + |tag|])
  }

  /** The number of digits in the run that starts at `p` (the greedy \d+). */
  function DigitRun(line: Bytes, p: nat): (n: nat)
    requires p <= |line|
    ensures p + n <= |line|
    ensures forall k | p <= k < p + n :: IsDigit(line[k])
    ensures p + n == |line| || !IsDigit(line[p + n])
    decreases |line| - p
  {
    if p < |line| && IsDigit(line[p]) then 1 + DigitRun(line, p + 1) else 0
  }

  /** 10 to the power `n`. */
  function Pow10(n: nat): (p: nat)
    ensures p > 0
  {
    if n == 0 then 1 else 10 * Pow10(n - 1)
  }

  /**
   * The value of a string of decimal digits, as float() reads it: below
   * 10 to the number of digits, and zero for digits that are all zeros.
   */
  function Decimal(ds: Bytes): (v: nat)
    requires forall k | 0 <= k < |ds| :: IsDigit(ds[k])
    ensures v < Pow10(|ds|)
    ensures (forall k | 0 <= k < |ds| :: ds[k] == 48) ==> v == 0
  {
    if |ds| == 0 then 0
    else
      var last := ds[|ds| - 1];
      assert IsDigit(last);
      10 * Decimal(ds[..|ds| - 1]) + (last - 48)
  }

  /** The decimal digits of `n`, as an aligner writes a score. */
  function DecimalDigits(n: nat): (ds: Bytes)
    ensures |ds| > 0 && forall k | 0 <= k < |ds| :: IsDigit(ds[k])
  {
    if n < 10 then [48 + n] else DecimalDigits(n / 10) + [48 + n % 10]
  }

  /** Reading back the digits of a number gives the number. */
  lemma {:induction false} DecimalRoundTrip(n: nat)
    ensures Decimal(DecimalDigits(n)) == n
  {
    var ds := DecimalDigits(n);
    if n >= 10 {
      DecimalRoundTrip(n / 10);
      assert ds[..|ds| - 1] == DecimalDigits(n / 10);
    }
  }

  /** The leftmost position from `p` on where the pattern matches. */
  function FirstMatch(line: Bytes, tag: Bytes, p: nat): (r: Option<nat>)
    ensures r.Some? ==> p <= r.value && MatchAt(line, tag, r.value)
    ensures r.Some? ==> forall q | p <= q < r.value :: !MatchAt(line, tag, q)
    ensures r.None? ==> forall q | p <= q :: !MatchAt(line, tag, q)
    decreases |line| - p
  {
    if p + |tag| >= |line| then None
    else if MatchAt(line, tag, p) then Some(p)
    else FirstMatch(line, tag, p + 1)
  }

  /** The digits of the leftmost match of the pattern, starting at `s`. */
  function DigitsAt(line: Bytes, s: nat): (ds: Bytes)
    requires s <= |line|
    ensures forall k | 0 <= k < |ds| :: IsDigit(ds[k])
  {
    line[s..s + DigitRun(line, s)]
  }

  /** get_score: the number after the leftmost tag(\d+) in the line, or None. */
  function Score(line: Bytes, tag: Bytes): (r: Option<nat>)
    ensures r.None? <==> forall q: nat :: !MatchAt(line, tag, q)
  {
    match FirstMatch(line, tag, 0)
    case None => None
    case Some(q) => Some(Decimal(DigitsAt(line, q + |tag|)))
  }

  /** The score of a line is read at its first match. */
  lemma ScoreAt(line: Bytes, tag: Bytes, m: nat)
    requires MatchAt(line, tag, m) && forall q: nat | q < m :: !MatchAt(line, tag, q)
    ensures Score(line, tag) == Some(Decimal(DigitsAt(line, m + |tag|)))
  {
    var r := FirstMatch(line, tag, 0);
    assert r.Some?;
    assert !(r.value < m);
  }

  /**
   * A line whose first match of the pattern is at `m`, with the tag
   * followed there by the run of `n` digits (leading zeros allowed, as in
   * AS:i:007), has the value of that run as its score.
   */
  lemma ScoreOfRun(line: Bytes, tag: Bytes, m: nat, n: nat)
    requires m + |tag| + n <= |line| && line[m..m + |tag|] == tag
    requires n > 0 && forall k | m + |tag| <= k < m + |tag| + n :: IsDigit(line[k])
    requires m + |tag| + n == |line| || !IsDigit(line[m + |tag| + n])
    requires forall q: nat | q < m :: !MatchAt(line, tag, q)
    ensures Score(line, tag) == Some(Decimal(line[m + |tag|..m + |tag| + n]))
  {
    DigitsOfRun(line, m + |tag|, n);
    assert MatchAt(line, tag, m);
    ScoreAt(line, tag, m);
  }

  /** The digits read at `s` are the whole run of `n` digits that starts there. */
  lemma DigitsOfRun(line: Bytes, s: nat, n: nat)
    requires s + n <= |line| && forall k | s <= k < s + n :: IsDigit(line[k])
    requires s + n == |line| || !IsDigit(line[s + n])
    ensures DigitsAt(line, s) == line[s..s + n]
  {
    var ds := line[s..s + n];
    forall k | 0 <= k < |ds|
      ensures IsDigit(ds[k])
    {
      assert ds[k] == line[s + k];
    }
    DigitRunOf(line, s, ds);
  }

  /**
   * A line holding the field tag<n>, written in decimal and followed by a
   * non-digit or the end of the line, with no earlier match of the pattern,
   * has score n.
   */
  lemma ScoreOfField(pre: Bytes, tag: Bytes, n: nat, post: Bytes)
    requires |post| == 0 || !IsDigit(post[0])
    requires forall q: nat | q < |pre| :: !MatchAt(pre + tag + DecimalDigits(n) + post, tag, q)
    ensures Score(pre + tag + DecimalDigits(n) + post, tag) == Some(n)
  {
    var ds := DecimalDigits(n);
    var line := pre + tag + ds + post;
    var s := |pre| + |tag|;
    assert line[|pre|..s] == tag;
    assert line[s] == ds[0];
    assert MatchAt(line, tag, |pre|);
    assert FirstMatch(line, tag, 0) == Some(|pre|);
    DigitRunOf(line, s, ds);
    assert DigitsAt(line, s) == ds;
    DecimalRoundTrip(n);
  }

  lemma {:induction false} DigitRunOf(line: Bytes, s: nat, ds: Bytes)
    requires s + |ds| <= |line| && line[s..s + |ds|] == ds
    requires forall k | 0 <= k < |ds| :: IsDigit(ds[k])
    requires s + |ds| == |line| || !IsDigit(line[s + |ds|])
    ensures DigitRun(line, s) == |ds|
    decreases |ds|
  {
    if |ds| > 0 {
      assert line[s] == ds[0];
      assert line[s + 1..s + 1 + |ds[1..]|] == ds[1..];
      DigitRunOf(line, s + 1, ds[1..]);
    }
  }

  // ---------------------------------------------------------------------
  // Which reads are best
  // ---------------------------------------------------------------------

  datatype FilterError =
    | ScoresIncomparable  // a line has an XS score but no AS score: comparing a number with None
    | NothingProcessed    // no read was processed: the percentages divide by zero

  /**
   * is_best_alignment: no other alignment, or the other alignment scores
   * below this one. The AS score is only read when an XS score exists.
   */
  function IsBest(line: Bytes): (r: Result<bool, FilterError>)
    ensures r.Failure? <==> Score(line, ExtraTag).Some? && Score(line, AlignTag).None?
    ensures r.Failure? ==> r.error == ScoresIncomparable
    ensures r == Success(true) <==>
      Score(line, ExtraTag).None? || (Score(line, AlignTag).Some? && Score(line, ExtraTag).value < Score(line, AlignTag).value)
  {
    match Score(line, ExtraTag)
    case None => Success(true)
    case Some(x) =>
      match Score(line, AlignTag)
      case None => Failure(ScoresIncomparable)
      case Some(a) => Success(x < a)
  }

  /**
   * A read that aligns elsewhere exactly as well as here is not best, and
   * one whose only alignment is this one is.
   */
  lemma EqualMapperNotBest(line: Bytes, a: nat)
    requires Score(line, AlignTag) == Some(a)
    ensures Score(line, ExtraTag) == Some(a) ==> IsBest(line) == Success(false)
    ensures (forall q :: !MatchAt(line, ExtraTag, q)) ==> IsBest(line) == Success(true)
  {
  }

  /** A read: one line, or the two lines of a pair of mates. */
  datatype Read = Single(line: Bytes) | Pair(line1: Bytes, line2: Bytes)

  /** The `or` of is_best_alignment over the mates: mate 2 is examined only when mate 1 is not best. */
  function ReadBest(read: Read): (r: Result<bool, FilterError>)
    ensures r.Failure? ==> r.error == ScoresIncomparable
    ensures r == Success(false) <==> forall i | 0 <= i < |ReadLines(read)| :: IsBest(ReadLines(read)[i]) == Success(false)
  {
    match read
    case Single(line) =>
      assert ReadLines(read)[0] == line;
      IsBest(line)
    case Pair(line1, line2) =>
      assert ReadLines(read)[0] == line1 && ReadLines(read)[1] == line2;
      match IsBest(line1)
      case Failure(e) => Failure(e)
      case Success(true) => Success(true)
      case Success(false) => IsBest(line2)
  }

  /**
   * A pair is kept when either mate is best; it is dropped only when both
   * mates are not. An error reading mate 2 counts only when mate 1 is not best.
   */
  lemma PairBest(line1: Bytes, line2: Bytes)
    ensures ReadBest(Pair(line1, line2)) == Success(true) <==>
      IsBest(line1) == Success(true) || (IsBest(line1) == Success(false) && IsBest(line2) == Success(true))
    ensures ReadBest(Pair(line1, line2)) == Success(false) <==>
      IsBest(line1) == Success(false) && IsBest(line2) == Success(false)
    ensures ReadBest(Pair(line1, line2)).Failure? <==>
      IsBest(line1).Failure? || (IsBest(line1) == Success(false) && IsBest(line2).Failure?)
  {
  }

  /** The lines a read came from, and that are written when it is kept. */
  function ReadLines(read: Read): (ls: seq<Bytes>)
    ensures |ls| == if read.Single? then 1 else 2
  {
    match read
    case Single(line) => [line]
    case Pair(line1, line2) => [line1, line2]
  }

  /**
   * The reads of the body that follows the header: each line when single-
   * end; consecutive lines two by two when paired-end, where a last line
   * without a mate is read but never processed.
   */
  function Reads(body: seq<Bytes>, paired: bool): (rs: seq<Read>)
    ensures |rs| == if paired then |body| / 2 else |body|
  {
    if paired then seq(|body| / 2, k requires 0 <= k < |body| / 2 => Pair(body[2 * k], body[2 * k + 1]))
    else seq(|body|, k requires 0 <= k < |body| => Single(body[k]))
  }

  // ---------------------------------------------------------------------
  // The pass over the reads
  // ---------------------------------------------------------------------

  /** A read as the pass sees it: the lines written if it is kept, and whether it is best. */
  datatype Judged = Judged(lines: seq<Bytes>, verdict: Result<bool, FilterError>)

  function Judge(rs: seq<Read>): (js: seq<Judged>)
    ensures |js| == |rs|
  {
    if |rs| == 0 then [] else [Judged(ReadLines(rs[0]), ReadBest(rs[0]))] + Judge(rs[1..])
  }

  lemma {:induction false} JudgeAt(rs: seq<Read>, k: nat)
    requires k < |rs|
    ensures Judge(rs)[k] == Judged(ReadLines(rs[k]), ReadBest(rs[k]))
    decreases k
  {
    if k > 0 {
      JudgeAt(rs[1..], k - 1);
    }
  }

  /**
   * The outcome of the pass from some read on: the lines written, the
   * reads kept and removed, and the error that stopped the pass, if any.
   */
  datatype Sifted = Sifted(out: seq<Bytes>, kept: nat, removed: nat, error: Option<FilterError>)

  function SiftFrom(js: seq<Judged>, t: nat): (s: Sifted)
    requires t <= |js|
    ensures s.kept + s.removed <= |js| - t
    ensures s.error.None? ==> s.kept + s.removed == |js| - t
    decreases |js| - t
  {
    if t == |js| then Sifted([], 0, 0, None)
    else
      match js[t].verdict
      case Failure(e) => Sifted([], 0, 0, Some(e))
      case Success(best) =>
        var rest := SiftFrom(js, t + 1);
        if best then Sifted(js[t].lines + rest.out, rest.kept + 1, rest.removed, rest.error)
        else Sifted(rest.out, rest.kept, rest.removed + 1, rest.error)
  }

  /** The first read from `t` on whose judgement is an error, or the number of reads if none is. */
  function FirstFailure(js: seq<Judged>, t: nat): (stop: nat)
    requires t <= |js|
    ensures t <= stop <= |js|
    ensures forall k | t <= k < stop :: js[k].verdict.Success?
    ensures stop < |js| ==> js[stop].verdict.Failure?
    decreases |js| - t
  {
    if t == |js| || js[t].verdict.Failure? then t else FirstFailure(js, t + 1)
  }

  /** The reads in [t, stop) judged best, in order. */
  function BestIndices(js: seq<Judged>, t: nat, stop: nat): (ks: seq<nat>)
    requires t <= stop <= |js|
    ensures forall k :: k in ks <==> t <= k < stop && js[k].verdict == Success(true)
    ensures forall i | 0 <= i < |ks| :: t <= ks[i] < stop
    ensures forall a, b | 0 <= a < b < |ks| :: ks[a] < ks[b]
    decreases stop - t
  {
    if t == stop then []
    else if js[t].verdict == Success(true) then
      var rest := BestIndices(js, t + 1, stop);
      [t] + rest
    else BestIndices(js, t + 1, stop)
  }

  /** The lines of the reads `ks`, one read after the other. */
  function Gather(js: seq<Judged>, ks: seq<nat>): seq<Bytes>
    requires forall i | 0 <= i < |ks| :: ks[i] < |js|
  {
    if |ks| == 0 then [] else js[ks[0]].lines + Gather(js, ks[1..])
  }

  /**
   * The pass from read `t` on writes the reads judged best, in order, up
   * to the first read whose judgement is an error; it keeps those and
   * removes the others before it; and it stops with that read's error.
   */
  lemma {:induction false} SiftMeaning(js: seq<Judged>, t: nat)
    requires t <= |js|
    ensures var s, stop := SiftFrom(js, t), FirstFailure(js, t);
      var ks := BestIndices(js, t, stop);
      && s.out == Gather(js, ks)
      && s.kept == |ks|
      && s.kept + s.removed == stop - t
      && s.error == (if stop < |js| then Some(js[stop].verdict.error) else None)
    decreases |js| - t
  {
    if t < |js| && js[t].verdict.Success? {
      SiftMeaning(js, t + 1);
      var stop := FirstFailure(js, t);
      assert stop == FirstFailure(js, t + 1);
      var ks := BestIndices(js, t, stop);
      if js[t].verdict.value {
        assert ks == [t] + BestIndices(js, t + 1, stop);
        assert ks[1..] == BestIndices(js, t + 1, stop);
      }
    }
  }

  /** The number of leading header lines, from line `i` on. */
  function HeaderEnd(lines: seq<Bytes>, i: nat): (h: nat)
    requires i <= |lines|
    ensures i <= h <= |lines|
    ensures forall j | i <= j < h :: IsHeader(lines[j])
    ensures h < |lines| ==> !IsHeader(lines[h])
    decreases |lines| - i
  {
    if i < |lines| && IsHeader(lines[i]) then HeaderEnd(lines, i + 1) else i
  }

  /** The output file and the outcome: the kept and removed counts, or the error raised. */
  datatype Cleaned = Cleaned(written: Bytes, counts: Result<(nat, nat), FilterError>)

  /** remove_equal_mappers over the lines of the input SAM file. */
  function CleanLines(lines: seq<Bytes>, paired: bool): (c: Cleaned)
    ensures var header := Flatten(lines[..HeaderEnd(lines, 0)]);
      |header| <= |c.written| && c.written[..|header|] == header
    ensures c.counts.Success? ==> var (kept, removed) := c.counts.value;
      0 < kept + removed == |Reads(lines[HeaderEnd(lines, 0)..], paired)|
  {
    var h := HeaderEnd(lines, 0);
    var s := SiftFrom(Judge(Reads(lines[h..], paired)), 0);
    Cleaned(Flatten(lines[..h]) + Flatten(s.out), Outcome(s))
  }

  /** remove_equal_mappers over the content of the input SAM file. */
  function Clean(content: Bytes, paired: bool): Cleaned
  {
    CleanLines(SplitLines(content), paired)
  }

  // ---------------------------------------------------------------------
  // The method, following the source's loops
  // ---------------------------------------------------------------------

  /**
   * The pass over the first `t` reads, none of whose judgements is an
   * error: the lines written, the reads kept and the reads removed, built
   * read by read as the loops do.
   */
  ghost function SiftedTo(js: seq<Judged>, t: nat): (s: Sifted)
    requires t <= |js| && forall i | 0 <= i < t :: js[i].verdict.Success?
    ensures s.error == None
    decreases t
  {
    if t == 0 then Sifted([], 0, 0, None)
    else
      var p := SiftedTo(js, t - 1);
      if js[t - 1].verdict.value then Sifted(p.out + js[t - 1].lines, p.kept + 1, p.removed, None)
      else Sifted(p.out, p.kept, p.removed + 1, None)
  }

  /** The pass from the first read is the pass over the first `t` reads followed by the pass from read `t`. */
  lemma {:induction false} SiftSplit(js: seq<Judged>, t: nat)
    requires t <= |js| && forall i | 0 <= i < t :: js[i].verdict.Success?
    ensures var p := SiftedTo(js, t);
      var r := SiftFrom(js, t);
      SiftFrom(js, 0) == Sifted(p.out + r.out, p.kept + r.kept, p.removed + r.removed, r.error)
    decreases t
  {
    if t > 0 {
      SiftSplit(js, t - 1);
      var p := SiftedTo(js, t - 1);
      var r := SiftFrom(js, t);
      if js[t - 1].verdict.value {
        assert p.out + (js[t - 1].lines + r.out) == (p.out + js[t - 1].lines) + r.out;
      }
    }
  }

  /** Where the loops stop: at the end of the reads, or at the first error. */
  lemma SiftEnd(js: seq<Judged>, t: nat)
    requires t <= |js| && forall i | 0 <= i < t :: js[i].verdict.Success?
    requires t == |js| || js[t].verdict.Failure?
    ensures var p := SiftedTo(js, t);
      SiftFrom(js, 0) == Sifted(p.out, p.kept, p.removed, if t == |js| then None else Some(js[t].verdict.error))
  {
    SiftSplit(js, t);
    assert SiftedTo(js, t).out + [] == SiftedTo(js, t).out;
  }

  /** The counts once the pass has ended: an error, no read at all, or the two counts. */
  function Outcome(s: Sifted): (r: Result<(nat, nat), FilterError>)
    ensures r.Success? <==> s.error.None? && s.kept + s.removed > 0
    ensures r.Success? ==> r.value == (s.kept, s.removed)
    ensures r.Failure? ==> r.error == if s.error.Some? then s.error.value else NothingProcessed
  {
    if s.error.Some? then Failure(s.error.value)
    else if s.kept + s.removed == 0 then Failure(NothingProcessed)
    else Success((s.kept, s.removed))
  }

  /** The header loop: copies the lines that start with '@' and returns the first line that does not. */
  method CopyHeader(lines: seq<Bytes>) returns (written: Bytes, i: nat, line: Bytes)
    ensures i == HeaderEnd(lines, 0) && line == LineAt(lines, i)
    ensures written == Flatten(lines[..i])
  {
    written := [];
    i := 0;
    line := LineAt(lines, 0);
    while IsHeader(line)
      invariant i <= |lines| && line == LineAt(lines, i)
      invariant written == Flatten(lines[..i])
      invariant forall j | 0 <= j < i :: IsHeader(lines[j])
      decreases |lines| - i
    {
      assert lines[..i + 1] == lines[..i] + [line];
      FlattenAppend(lines[..i], [line]);
      FlattenShort(line, [], [], []);
      written := written + line;
      i := i + 1;
      line := LineAt(lines, i);
    }
    HeaderEndIs(lines, i);
  }

  /**
   * Judges read `t` of the body that starts at line `h`: for a pair,
   * is_best_alignment(line) or is_best_alignment(line2), evaluated left
   * to right.
   */
  method JudgeRead(lines: seq<Bytes>, h: nat, paired: bool, t: nat, ghost js: seq<Judged>)
    returns (best: Result<bool, FilterError>)
    requires h <= |lines| && AllJudged(lines, h, paired, js) && t < |js|
    ensures js[t].verdict == best
    ensures js[t].lines == if paired then [lines[h + 2 * t], lines[h + 2 * t + 1]] else [lines[h + t]]
  {
    var read := ReadAt(lines, h, paired, t);
    best := ReadBest(read);
  }

  /**
   * One read judged best or not: a best read is written and counted as
   * kept, any other counted as removed.
   */
  method Tally(ghost js: seq<Judged>, t: nat, bytes: Bytes, best: bool,
               out: Bytes, ghost done: seq<Bytes>, kept: nat, removed: nat)
    returns (out': Bytes, ghost done': seq<Bytes>, kept': nat, removed': nat)
    requires t < |js| && js[t].verdict == Success(best) && bytes == Flatten(js[t].lines)
    requires forall i | 0 <= i < t :: js[i].verdict.Success?
    requires SiftedTo(js, t) == Sifted(done, kept, removed, None) && out == Flatten(done)
    ensures forall i | 0 <= i < t + 1 :: js[i].verdict.Success?
    ensures SiftedTo(js, t + 1) == Sifted(done', kept', removed', None) && out' == Flatten(done')
  {
    if best {
      FlattenAppend(done, js[t].lines);
      out', done', kept', removed' := out + bytes, done + js[t].lines, kept + 1, removed;
    } else {
      out', done', kept', removed' := out, done, kept, removed + 1;
    }
  }

  /**
   * The paired-end loop: `line` is the line read last, and iterating over
   * the file gives its mate; a pair is kept when either mate is best.
   * Returns the bytes written after the header, the counts, and the error
   * that stopped the loop, if any.
   */
  method SiftPairs(lines: seq<Bytes>, h: nat, line0: Bytes, ghost js: seq<Judged>)
    returns (out: Bytes, kept: nat, removed: nat, error: Option<FilterError>)
    requires h <= |lines| && line0 == LineAt(lines, h) && AllJudged(lines, h, true, js)
    ensures var s := SiftFrom(js, 0);
      out == Flatten(s.out) && kept == s.kept && removed == s.removed && error == s.error
  {
    ghost var done: seq<Bytes> := [];
    out, kept, removed := [], 0, 0;
    var line := line0;
    var t := 0;
    var j := h;
    while j + 1 < |lines|
      invariant j == h + 2 * t && t <= |js| && line == LineAt(lines, j)
      invariant j + 1 < |lines| <==> t < |js|
      invariant forall i | 0 <= i < t :: js[i].verdict.Success?
      invariant SiftedTo(js, t) == Sifted(done, kept, removed, None) && out == Flatten(done)
      decreases |lines| - j
    {
      var line2 := lines[j + 1];
      var best := JudgeRead(lines, h, true, t, js);
      if best.Failure? {
        SiftEnd(js, t);
        return out, kept, removed, Some(best.error);
      }
      FlattenShort(line, line2, [], []);
      out, done, kept, removed := Tally(js, t, line + line2, best.value, out, done, kept, removed);
      t := t + 1;
      j := j + 2;
      line := LineAt(lines, j);
    }
    SiftEnd(js, t);
    error := None;
  }

  /**
   * The single-end loop: while the line read is not empty, keep it when it
   * is best. Returns the bytes written after the header, the counts, and
   * the error that stopped the loop, if any.
   */
  method SiftSingles(lines: seq<Bytes>, h: nat, line0: Bytes, ghost js: seq<Judged>)
    returns (out: Bytes, kept: nat, removed: nat, error: Option<FilterError>)
    requires h <= |lines| && line0 == LineAt(lines, h) && AllJudged(lines, h, false, js)
    requires forall k | h <= k < |lines| :: |lines[k]| > 0
    ensures var s := SiftFrom(js, 0);
      out == Flatten(s.out) && kept == s.kept && removed == s.removed && error == s.error
  {
    ghost var done: seq<Bytes> := [];
    out, kept, removed := [], 0, 0;
    var line := line0;
    var j := h;
    var t := 0;
    while |line| > 0
      invariant j == h + t && j <= |lines| && line == LineAt(lines, j)
      invariant forall i | 0 <= i < t :: js[i].verdict.Success?
      invariant SiftedTo(js, t) == Sifted(done, kept, removed, None) && out == Flatten(done)
      decreases |lines| - j
    {
      out, done, kept, removed, error := SiftSingle(lines, h, t, line, out, done, kept, removed, js);
      if error.Some? {
        return;
      }
      t := t + 1;
      j := j + 1;
      line := LineAt(lines, j);
    }
    SiftEnd(js, t);
    error := None;
  }

  /**
   * One turn of the single-end loop: judges read `t`, whose line is `line`,
   * and either tallies it or returns the error that ends the loop.
   */
  method SiftSingle(lines: seq<Bytes>, h: nat, t: nat, line: Bytes,
                    out: Bytes, ghost done: seq<Bytes>, kept: nat, removed: nat, ghost js: seq<Judged>)
    returns (out': Bytes, ghost done': seq<Bytes>, kept': nat, removed': nat, error: Option<FilterError>)
    requires h + t < |lines| && line == lines[h + t] && AllJudged(lines, h, false, js)
    requires forall i | 0 <= i < t :: js[i].verdict.Success?
    requires SiftedTo(js, t) == Sifted(done, kept, removed, None) && out == Flatten(done)
    ensures error.Some? ==> var s := SiftFrom(js, 0);
      out' == Flatten(s.out) && kept' == s.kept && removed' == s.removed && error == s.error
    ensures error.None? ==> forall i | 0 <= i < t + 1 :: js[i].verdict.Success?
    ensures error.None? ==> SiftedTo(js, t + 1) == Sifted(done', kept', removed', None) && out' == Flatten(done')
  {
    var best := JudgeRead(lines, h, false, t, js);
    if best.Failure? {
      SiftEnd(js, t);
      return out, done, kept, removed, Some(best.error);
    }
    FlattenShort(line, [], [], []);
    out', done', kept', removed' := Tally(js, t, line, best.value, out, done, kept, removed);
    error := None;
  }

  /**
   * remove_equal_mappers over the lines of the input: copies the header,
   * then keeps the best reads (pairs when `paired`), and returns the bytes
   * written with the counts or the error raised.
   */
  method RemoveEqualMappersLines(lines: seq<Bytes>, paired: bool) returns (written: Bytes, counts: Result<(nat, nat), FilterError>)
    requires WellFormed(lines)
    ensures written == CleanLines(lines, paired).written
    ensures counts == CleanLines(lines, paired).counts
  {
    var header, h, line := CopyHeader(lines);
    var out, kept, removed, error;
    if paired {
      JudgeAll(lines, h, true);
      out, kept, removed, error := SiftPairs(lines, h, line, Judge(Reads(lines[h..], true)));
    } else {
      JudgeAll(lines, h, false);
      out, kept, removed, error := SiftSingles(lines, h, line, Judge(Reads(lines[h..], false)));
    }
    written := header + out;
    counts := if error.Some? then Failure(error.value)
      else if kept + removed == 0 then Failure(NothingProcessed)
      else Success((kept, removed));
  }

  /** remove_equal_mappers on the input SAM file's content. */
  method RemoveEqualMappers(content: Bytes, paired: bool) returns (written: Bytes, counts: Result<(nat, nat), FilterError>)
    ensures written == Clean(content, paired).written
    ensures counts == Clean(content, paired).counts
  {
    var lines := SplitLines(content);
    assert Clean(content, paired) == CleanLines(lines, paired);
    written, counts := RemoveEqualMappersLines(lines, paired);
  }

  /** Read `k` of the body that starts at line `h`. */
  function ReadAt(lines: seq<Bytes>, h: nat, paired: bool, k: nat): Read
    requires if paired then h + 2 * k + 1 < |lines| else h + k < |lines|
  {
    if paired then Pair(lines[h + 2 * k], lines[h + 2 * k + 1]) else Single(lines[h + k])
  }

  /** `js` judges the reads of the body that starts at line `h`, one by one. */
  predicate AllJudged(lines: seq<Bytes>, h: nat, paired: bool, js: seq<Judged>)
    requires h <= |lines|
  {
    && |js| == (if paired then (|lines| - h) / 2 else |lines| - h)
    && forall k {:trigger ReadAt(lines, h, paired, k)} | 0 <= k < |js| ::
         js[k] == Judged(ReadLines(ReadAt(lines, h, paired, k)), ReadBest(ReadAt(lines, h, paired, k)))
  }

  lemma JudgeAll(lines: seq<Bytes>, h: nat, paired: bool)
    requires h <= |lines|
    ensures AllJudged(lines, h, paired, Judge(Reads(lines[h..], paired)))
  {
    var rs := Reads(lines[h..], paired);
    forall k | 0 <= k < |rs|
      ensures Judge(rs)[k] == Judged(ReadLines(ReadAt(lines, h, paired, k)), ReadBest(ReadAt(lines, h, paired, k)))
    {
      ReadIs(lines, h, paired, k);
      JudgeAt(rs, k);
    }
  }

  /** The reads of the body are the reads at their positions. */
  lemma ReadIs(lines: seq<Bytes>, h: nat, paired: bool, k: nat)
    requires h <= |lines| && k < |Reads(lines[h..], paired)|
    ensures if paired then h + 2 * k + 1 < |lines| else h + k < |lines|
    ensures Reads(lines[h..], paired)[k] == ReadAt(lines, h, paired, k)
  {
    var body := lines[h..];
    if paired {
      assert 2 * k + 1 < |body| by {
        assert k < |body| / 2;
      }
      assert Reads(body, true)[k] == Pair(body[2 * k], body[2 * k + 1]);
    } else {
      assert Reads(body, false)[k] == Single(body[k]);
    }
  }

  lemma HeaderEndIs(lines: seq<Bytes>, i: nat)
    requires i <= |lines| && (forall j | 0 <= j < i :: IsHeader(lines[j]))
    requires !IsHeader(LineAt(lines, i))
    ensures HeaderEnd(lines, 0) == i
  {
    HeaderEndFrom(lines, 0, i);
  }

  lemma {:induction false} HeaderEndFrom(lines: seq<Bytes>, k: nat, i: nat)
    requires k <= i <= |lines| && (forall j | k <= j < i :: IsHeader(lines[j]))
    requires !IsHeader(LineAt(lines, i))
    ensures HeaderEnd(lines, k) == i
    decreases i - k
  {
    if k < i {
      HeaderEndFrom(lines, k + 1, i);
    }
  }

  // ---------------------------------------------------------------------
  // What the pass does, read by read
  // ---------------------------------------------------------------------

  /** Each read's judgement: its lines, and whether it is best. */
  lemma JudgeReads(rs: seq<Read>)
    ensures forall k | 0 <= k < |rs| :: Judge(rs)[k] == Judged(ReadLines(rs[k]), ReadBest(rs[k]))
  {
    forall k | 0 <= k < |rs|
      ensures Judge(rs)[k] == Judged(ReadLines(rs[k]), ReadBest(rs[k]))
    {
      JudgeAt(rs, k);
    }
  }

  /**
   * The counts come back only when every read was judged and there was at
   * least one; kept and removed then add up to the number of reads. With
   * no read at all the pass fails on the division; a read whose scores
   * cannot be compared fails it with that error.
   */
  lemma OutcomeMeaning(js: seq<Judged>)
    requires forall k | 0 <= k < |js| :: js[k].verdict.Failure? ==> js[k].verdict.error == ScoresIncomparable
    ensures var stop := FirstFailure(js, 0);
      var ks := BestIndices(js, 0, stop);
      var r := Outcome(SiftFrom(js, 0));
      && (r.Success? <==> stop == |js| && |js| > 0)
      && (r.Success? ==> r.value.0 == |ks| && r.value.0 + r.value.1 == |js|)
      && (r == Failure(NothingProcessed) <==> |js| == 0)
      && (r == Failure(ScoresIncomparable) <==> stop < |js|)
  {
    SiftMeaning(js, 0);
  }

  /**
   * The cleaned file: the header copied as it is, then the reads judged
   * best, in order, each with all its lines, up to the first read whose
   * scores cannot be compared; the counts are the outcome of that pass.
   */
  lemma CleanMeaning(lines: seq<Bytes>, paired: bool)
    ensures var h := HeaderEnd(lines, 0);
      var js := Judge(Reads(lines[h..], paired));
      var c := CleanLines(lines, paired);
      && c.written == Flatten(lines[..h]) + Flatten(Gather(js, BestIndices(js, 0, FirstFailure(js, 0))))
      && |js| == (if paired then (|lines| - h) / 2 else |lines| - h)
      && (c.counts.Success? <==> FirstFailure(js, 0) == |js| && |js| > 0)
      && (c.counts.Success? ==> c.counts.value.0 + c.counts.value.1 == |js|)
      && (c.counts == Failure(NothingProcessed) <==> |js| == 0)
  {
    var h := HeaderEnd(lines, 0);
    var rs := Reads(lines[h..], paired);
    var js := Judge(rs);
    JudgeReads(rs);
    SiftMeaning(js, 0);
    OutcomeMeaning(js);
  }

  /**
   * The reads written are exactly those judged best before the first error:
   * a single-end read when is_best_alignment holds for its line, a pair when
   * it holds for either mate (PairBest).
   */
  lemma KeptReads(lines: seq<Bytes>, paired: bool)
    ensures var h := HeaderEnd(lines, 0);
      var rs := Reads(lines[h..], paired);
      var js := Judge(rs);
      var stop := FirstFailure(js, 0);
      && |js| == |rs|
      && (forall k | 0 <= k < stop :: ReadBest(rs[k]).Success?)
      && (stop < |rs| ==> ReadBest(rs[stop]).Failure?)
      && (forall k :: k in BestIndices(js, 0, stop) <==> 0 <= k < stop && ReadBest(rs[k]) == Success(true))
  {
    var h := HeaderEnd(lines, 0);
    JudgeReads(Reads(lines[h..], paired));
  }

  // ---------------------------------------------------------------------
  // The output is an order-preserving subsequence of the input
  // ---------------------------------------------------------------------

  /** The lines at positions `ps`, in that order. */
  function Picks(lines: seq<Bytes>, ps: seq<nat>): (picked: seq<Bytes>)
    requires forall i | 0 <= i < |ps| :: ps[i] < |lines|
    ensures |picked| == |ps|
  {
    if |ps| == 0 then [] else [lines[ps[0]]] + Picks(lines, ps[1..])
  }

  lemma {:induction false} PicksAppend(lines: seq<Bytes>, ps: seq<nat>, qs: seq<nat>)
    requires forall i | 0 <= i < |ps| :: ps[i] < |lines|
    requires forall i | 0 <= i < |qs| :: qs[i] < |lines|
    ensures Picks(lines, ps + qs) == Picks(lines, ps) + Picks(lines, qs)
    decreases |ps|
  {
    if |ps| == 0 {
      assert ps + qs == qs;
    } else {
      assert (ps + qs)[1..] == ps[1..] + qs;
      PicksAppend(lines, ps[1..], qs);
    }
  }

  /** The input positions of the lines of reads `ks` of the body that starts at line `h`. */
  function Positions(h: nat, ks: seq<nat>, paired: bool): (ps: seq<nat>)
    ensures |ps| == (if paired then 2 * |ks| else |ks|)
  {
    if |ks| == 0 then []
    else (if paired then [h + 2 * ks[0], h + 2 * ks[0] + 1] else [h + ks[0]]) + Positions(h, ks[1..], paired)
  }

  /** The number of lines in `n` reads. */
  function Span(paired: bool, n: nat): (m: nat)
    ensures m == n * (if paired then 2 else 1)
  {
    if paired then 2 * n else n
  }

  /** Reads from read `lo` on have their lines from position `h + Span(paired, lo)` on. */
  lemma {:induction false} PositionsAbove(h: nat, ks: seq<nat>, paired: bool, lo: nat)
    requires forall i | 0 <= i < |ks| :: lo <= ks[i]
    ensures forall i | 0 <= i < |Positions(h, ks, paired)| :: h + Span(paired, lo) <= Positions(h, ks, paired)[i]
    decreases |ks|
  {
    if |ks| > 0 {
      var ps := Positions(h, ks, paired);
      var first: seq<nat> := if paired then [h + 2 * ks[0], h + 2 * ks[0] + 1] else [h + ks[0]];
      var rest := Positions(h, ks[1..], paired);
      assert ps == first + rest;
      PositionsAbove(h, ks[1..], paired, lo);
      forall i | |first| <= i < |ps|
        ensures h + Span(paired, lo) <= ps[i]
      {
        assert ps[i] == rest[i - |first|];
      }
    }
  }

  /** Reads before read `n` have their lines before position `h + Span(paired, n)`. */
  lemma {:induction false} PositionsBelow(h: nat, ks: seq<nat>, paired: bool, n: nat)
    requires forall i | 0 <= i < |ks| :: ks[i] < n
    ensures forall i | 0 <= i < |Positions(h, ks, paired)| :: Positions(h, ks, paired)[i] < h + Span(paired, n)
    decreases |ks|
  {
    if |ks| > 0 {
      var ps := Positions(h, ks, paired);
      var first: seq<nat> := if paired then [h + 2 * ks[0], h + 2 * ks[0] + 1] else [h + ks[0]];
      var rest := Positions(h, ks[1..], paired);
      assert ps == first + rest;
      PositionsBelow(h, ks[1..], paired, n);
      forall i | |first| <= i < |ps|
        ensures ps[i] < h + Span(paired, n)
      {
        assert ps[i] == rest[i - |first|];
      }
    }
  }

  /** Reads in increasing order have their lines at increasing positions. */
  lemma {:induction false} PositionsIncrease(h: nat, ks: seq<nat>, paired: bool)
    requires forall a, b | 0 <= a < b < |ks| :: ks[a] < ks[b]
    ensures forall a, b | 0 <= a < b < |Positions(h, ks, paired)| ::
      Positions(h, ks, paired)[a] < Positions(h, ks, paired)[b]
    decreases |ks|
  {
    if |ks| > 0 {
      var ps := Positions(h, ks, paired);
      var first: seq<nat> := if paired then [h + 2 * ks[0], h + 2 * ks[0] + 1] else [h + ks[0]];
      var rest := Positions(h, ks[1..], paired);
      assert ps == first + rest;
      PositionsIncrease(h, ks[1..], paired);
      assert forall i | 0 <= i < |ks[1..]| :: ks[0] + 1 <= ks[1..][i] by {
        forall i | 0 <= i < |ks[1..]|
          ensures ks[0] + 1 <= ks[1..][i]
        {
          assert ks[1..][i] == ks[i + 1];
        }
      }
      PositionsAbove(h, ks[1..], paired, ks[0] + 1);
      forall a, b | 0 <= a < b < |ps|
        ensures ps[a] < ps[b]
      {
        if b < |first| {
        } else if a < |first| {
          assert ps[b] == rest[b - |first|];
        } else {
          assert ps[a] == rest[a - |first|] && ps[b] == rest[b - |first|];
        }
      }
    }
  }

  /** The judged lines of each read are the input lines it was read from. */
  predicate LinesFrom(lines: seq<Bytes>, h: nat, paired: bool, js: seq<Judged>)
  {
    forall k | 0 <= k < |js| ::
      if paired then h + 2 * k + 1 < |lines| && js[k].lines == [lines[h + 2 * k], lines[h + 2 * k + 1]]
      else h + k < |lines| && js[k].lines == [lines[h + k]]
  }

  lemma JudgedLines(lines: seq<Bytes>, h: nat, paired: bool, js: seq<Judged>)
    requires h <= |lines| && AllJudged(lines, h, paired, js)
    ensures LinesFrom(lines, h, paired, js)
  {
    forall k | 0 <= k < |js|
      ensures if paired then h + 2 * k + 1 < |lines| && js[k].lines == [lines[h + 2 * k], lines[h + 2 * k + 1]]
              else h + k < |lines| && js[k].lines == [lines[h + k]]
    {
      var read := ReadAt(lines, h, paired, k);
    }
  }

  /** The lines of the reads `ks` are the input lines at their positions. */
  lemma {:induction false} GatherPicks(lines: seq<Bytes>, h: nat, paired: bool, js: seq<Judged>, ks: seq<nat>)
    requires LinesFrom(lines, h, paired, js) && h + Span(paired, |js|) <= |lines|
    requires forall i | 0 <= i < |ks| :: ks[i] < |js|
    ensures forall i | 0 <= i < |Positions(h, ks, paired)| :: Positions(h, ks, paired)[i] < |lines|
    ensures Gather(js, ks) == Picks(lines, Positions(h, ks, paired))
    decreases |ks|
  {
    PositionsBelow(h, ks, paired, |js|);
    if |ks| > 0 {
      var k := ks[0];
      var first: seq<nat> := if paired then [h + 2 * k, h + 2 * k + 1] else [h + k];
      var rest := Positions(h, ks[1..], paired);
      assert Positions(h, ks, paired) == first + rest;
      GatherPicks(lines, h, paired, js, ks[1..]);
      PicksAppend(lines, first, rest);
      if paired {
        assert Picks(lines, first) == [lines[h + 2 * k], lines[h + 2 * k + 1]] by {
          assert first[1..][1..] == [];
        }
      } else {
        assert Picks(lines, first) == [lines[h + k]] by {
          assert first[1..] == [];
        }
      }
      assert js[k].lines == Picks(lines, first);
    }
  }

  /** The positions 0, 1, ..., n - 1. */
  function Upto(n: nat): (ps: seq<nat>)
    ensures |ps| == n && forall i | 0 <= i < n :: ps[i] == i
  {
    seq(n, i => i)
  }

  lemma {:induction false} PicksPrefix(lines: seq<Bytes>, n: nat)
    requires n <= |lines|
    ensures Picks(lines, Upto(n)) == lines[..n]
    decreases n
  {
    if n > 0 {
      PicksAppend(lines, Upto(n - 1), [n - 1]);
      assert Upto(n) == Upto(n - 1) + [n - 1];
      PicksPrefix(lines, n - 1);
      assert Picks(lines, [n - 1]) == [lines[n - 1]] by {
        assert [n - 1][1..] == [];
      }
      assert lines[..n] == lines[..n - 1] + [lines[n - 1]];
    }
  }

  /** The header positions followed by those of increasing reads of the body increase, and stay inside the input. */
  lemma BestPositions(lines: seq<Bytes>, h: nat, paired: bool, n: nat, ks: seq<nat>)
    requires h <= |lines| && n == (if paired then (|lines| - h) / 2 else |lines| - h)
    requires forall i | 0 <= i < |ks| :: ks[i] < n
    requires forall a, b | 0 <= a < b < |ks| :: ks[a] < ks[b]
    ensures var ps := Upto(h) + Positions(h, ks, paired);
      && (forall i | 0 <= i < |ps| :: ps[i] < |lines|)
      && (forall a, b | 0 <= a < b < |ps| :: ps[a] < ps[b])
  {
    var pos := Positions(h, ks, paired);
    PositionsAbove(h, ks, paired, 0);
    PositionsBelow(h, ks, paired, n);
    PositionsIncrease(h, ks, paired);
    assert Span(paired, n) <= |lines| - h;
    var ps := Upto(h) + pos;
    forall i | 0 <= i < |ps|
      ensures ps[i] < |lines|
    {
      if i >= h {
        assert ps[i] == pos[i - h];
      }
    }
    forall a, b | 0 <= a < b < |ps|
      ensures ps[a] < ps[b]
    {
      if b >= h {
        assert ps[b] == pos[b - h];
        if a >= h {
          assert ps[a] == pos[a - h];
        }
      }
    }
  }

  /** The header followed by the lines of reads `ks` are the input lines at the header's and those reads' positions. */
  lemma HeaderAndGather(lines: seq<Bytes>, h: nat, paired: bool, js: seq<Judged>, ks: seq<nat>)
    requires LinesFrom(lines, h, paired, js) && h + Span(paired, |js|) <= |lines|
    requires forall i | 0 <= i < |ks| :: ks[i] < |js|
    requires forall i | 0 <= i < |Upto(h) + Positions(h, ks, paired)| :: (Upto(h) + Positions(h, ks, paired))[i] < |lines|
    ensures Flatten(lines[..h]) + Flatten(Gather(js, ks)) == Flatten(Picks(lines, Upto(h) + Positions(h, ks, paired)))
  {
    var pos := Positions(h, ks, paired);
    GatherPicks(lines, h, paired, js, ks);
    PicksAppend(lines, Upto(h), pos);
    PicksPrefix(lines, h);
    FlattenAppend(lines[..h], Gather(js, ks));
  }

  /**
   * What is written, header included, is the input lines at strictly
   * increasing positions: an order-preserving subsequence of the input,
   * whose first lines are the whole header.
   */
  lemma WrittenSubsequence(lines: seq<Bytes>, paired: bool)
    ensures var h := HeaderEnd(lines, 0);
      var js := Judge(Reads(lines[h..], paired));
      var ps := Upto(h) + Positions(h, BestIndices(js, 0, FirstFailure(js, 0)), paired);
      && (forall i | 0 <= i < |ps| :: ps[i] < |lines|)
      && (forall a, b | 0 <= a < b < |ps| :: ps[a] < ps[b])
      && CleanLines(lines, paired).written == Flatten(Picks(lines, ps))
  {
    var h := HeaderEnd(lines, 0);
    var js := Judge(Reads(lines[h..], paired));
    var ks := BestIndices(js, 0, FirstFailure(js, 0));
    CleanMeaning(lines, paired);
    JudgeAll(lines, h, paired);
    JudgedLines(lines, h, paired, js);
    BestPositions(lines, h, paired, |js|, ks);
    assert Span(paired, |js|) <= |lines| - h;
    HeaderAndGather(lines, h, paired, js, ks);
  }
}
