/**
 * The FASTQ inputs of the alignment step: which files they are (one file,
 * an interleaved file or two mate files), the accessors that refuse the
 * wrong shape, and the two operations that replace the files with new
 * ones, interleaving and masking.
 *
 * The file system is a map from path to contents that the masking method
 * receives and returns. The temporary-directory mapping of output paths
 * depends on the project directory and is a parameter `toTemp`.
 */
module FastqInput {
  import opened Wrappers
  import opened Lines
  import opened Paths
  import SampleNames
  import FastqMask

  datatype FastqError =
    | TwoFastqs                      // fastq asked of a pair of mate files
    | IsInterleaved                  // fastq1/fastq2 asked of an interleaved file
    | NotPairedEnd                   // fastq1/fastq2 asked of a single-end file
    | AlreadyInterleaved             // interleave called twice
    | BadName(name: SampleNames.NameError)
    | NoSuchFile(path: string)       // opening an input that does not exist
    | QualLengthDiffers(path: string)  // a record whose bases and qualities differ in length
    | UnpackMismatch                 // two names unpacked from a list of one output

  // ---------------------------------------------------------------------
  // Leading and trailing dots, and the name of the interleaved file
  // ---------------------------------------------------------------------

  /** s.lstrip("."): `s` is some dots followed by the result, which does not start with a dot. */
  function LStripDots(s: string): (r: string)
    ensures |r| <= |s| && s[|s| - |r|..] == r && AllDots(s[..|s| - |r|])
    ensures r != [] ==> r[0] != '.'
  {
    if |s| > 0 && s[0] == '.' then LStripDots(s[1..]) else s
  }

  /** s.rstrip("."): `s` is the result followed by some dots, and the result does not end with a dot. */
  function RStripDots(s: string): (r: string)
    ensures |r| <= |s| && s[..|r|] == r && AllDots(s[|r|..])
    ensures r != [] ==> r[|r| - 1] != '.'
  {
    if |s| > 0 && s[|s| - 1] == '.' then
      var r := RStripDots(s[..|s| - 1]);
      assert s[|r|..] == s[..|s| - 1][|r|..] + ".";
      r
    else s
  }

  /**
   * The base name of the interleaved file as interleave writes it: the
   * extension of mate file 1 with trailing dots stripped, after the sample
   * name and a dot.
   */
  function InterleavedNameAsWritten(sample: string, fastq1: string): (name: string)
    ensures |name| > |sample| && name[..|sample| + 1] == sample + "."
    ensures name == sample + "." || name[|name| - 1] != '.'
  {
    sample + "." + RStripDots(SplitExt(fastq1).1)
  }

  /** An extension keeps its leading dot under rstrip, so the name gets two dots. */
  lemma AsWrittenDoublesDot(sample: string, fastq1: string)
    requires |SplitExt(fastq1).1| > 1
    ensures InterleavedNameAsWritten(sample, fastq1) == sample + "." + SplitExt(fastq1).1
  {
    var ext := SplitExt(fastq1).1;
    assert ext[|ext| - 1] != '.';
  }

  /** Mate file "s_1.fq" of sample "s" gives the interleaved file "s..fq". */
  lemma AsWrittenExample()
    ensures InterleavedNameAsWritten("s", "s_1.fq") == "s..fq"
  {
    var p := "s_1.fq";
    assert forall k | 0 <= k < |p| :: p[k] != '/';
    assert RFind(p, '/') == -1;
    RFindAt(p, '.', 3);
    assert !AllDots(p[0..3]) by {
      assert p[0] != '.';
    }
    assert p[..3] == "s_1" && p[3..] == ".fq";
    assert SplitExt(p) == ("s_1", ".fq");
    AsWrittenDoublesDot("s", p);
  }

  /** lstrip(".") removes exactly the one dot an extension starts with. */
  lemma LStripExtension(ext: string)
    requires ext != [] && ext[0] == '.'
    requires forall k | 0 < k < |ext| :: ext[k] != '.'
    ensures LStripDots(ext) == ext[1..]
  {
    var rest := ext[1..];
    if rest != [] {
      assert rest[0] == ext[1];
    }
    assert LStripDots(rest) == rest;
  }

  /**
   * The name with the leading dot of the extension stripped, as evidently
   * intended: the sample name followed by the extension of mate file 1.
   */
  function InterleavedName(sample: string, fastq1: string): (name: string)
    ensures SplitExt(fastq1).1 != [] ==> name == sample + SplitExt(fastq1).1
    ensures SplitExt(fastq1).1 == [] ==> name == sample + "."
  {
    var ext := SplitExt(fastq1).1;
    if ext == [] then sample + "." + LStripDots(ext)
    else
      LStripExtension(ext);
      assert "." + ext[1..] == ext;
      sample + "." + LStripDots(ext)
  }

  /**
   * The name as written and the corrected name differ by one dot: for an
   * extension longer than its dot the written name has an extra dot after
   * the sample name, and otherwise the two are the same.
   */
  lemma AsWrittenAgainstCorrected(sample: string, fastq1: string)
    ensures var ext, name := SplitExt(fastq1).1, InterleavedName(sample, fastq1);
      && (|ext| > 1 ==> |name| >= |sample| && InterleavedNameAsWritten(sample, fastq1) == sample + "." + name[|sample|..])
      && (|ext| <= 1 ==> InterleavedNameAsWritten(sample, fastq1) == name)
  {
    var ext := SplitExt(fastq1).1;
    if |ext| > 1 {
      AsWrittenDoublesDot(sample, fastq1);
      assert (sample + ext)[|sample|..] == ext;
    } else if |ext| == 1 {
      assert ext == ".";
      assert RStripDots(ext) == [];
    }
  }

  // ---------------------------------------------------------------------
  // Masking every file, in order
  // ---------------------------------------------------------------------

  /** The files after masking, and the error that stopped the masking, if any. */
  datatype Masked = Masked(files: map<string, Bytes>, error: Option<FastqError>)

  /**
   * _mask on each input from index `i` on, into the output at the same
   * index: a missing input stops before its output is created; otherwise
   * opening the output empties it, so an output that is its own input
   * reads as empty; the records masked before a length mismatch stay
   * written.
   */
  function MaskAll(fs: map<string, Bytes>, ins: seq<string>, outs: seq<string>, minCode: int, i: nat): (m: Masked)
    requires i <= |ins| == |outs|
    ensures m.error.Some? ==> m.error.value.NoSuchFile? || m.error.value.QualLengthDiffers?
    decreases |ins| - i
  {
    if i == |ins| then Masked(fs, None)
    else if ins[i] !in fs then Masked(fs, Some(NoSuchFile(ins[i])))
    else
      var content := if outs[i] == ins[i] then [] else fs[ins[i]];
      var masked := FastqMask.MaskFile(content, minCode);
      var fs1 := fs[outs[i] := Flatten(masked.out)];
      if !masked.ok then Masked(fs1, Some(QualLengthDiffers(ins[i])))
      else MaskAll(fs1, ins, outs, minCode, i + 1)
  }

  /**
   * Masking only adds files: every file stays, and when masking from index
   * `i` on succeeds, every output from `i` on is there.
   */
  lemma {:induction false} MaskAllKeeps(fs: map<string, Bytes>, ins: seq<string>, outs: seq<string>, minCode: int, i: nat)
    requires i <= |ins| == |outs|
    ensures var m := MaskAll(fs, ins, outs, minCode, i);
      && fs.Keys <= m.files.Keys
      && (m.error.None? ==> forall k | i <= k < |outs| :: outs[k] in m.files)
    decreases |ins| - i
  {
    if i < |ins| && ins[i] in fs {
      var content := if outs[i] == ins[i] then [] else fs[ins[i]];
      var masked := FastqMask.MaskFile(content, minCode);
      var fs1 := fs[outs[i] := Flatten(masked.out)];
      if masked.ok {
        MaskAllKeeps(fs1, ins, outs, minCode, i + 1);
      }
    }
  }

  /**
   * With outputs that are neither inputs nor each other, masking from
   * index `i` on succeeds exactly when every input from `i` on exists and
   * has matching record lengths.
   */
  lemma {:induction false} MaskAllSucceeds(fs: map<string, Bytes>, ins: seq<string>, outs: seq<string>, minCode: int, i: nat)
    requires i <= |ins| == |outs|
    requires forall k, j | 0 <= k < |outs| && 0 <= j < |ins| :: outs[k] != ins[j]
    ensures MaskAll(fs, ins, outs, minCode, i).error.None? <==>
      forall k | i <= k < |ins| :: ins[k] in fs && FastqMask.MaskFile(fs[ins[k]], minCode).ok
    decreases |ins| - i
  {
    if i < |ins| && ins[i] in fs {
      var masked := FastqMask.MaskFile(fs[ins[i]], minCode);
      var fs1 := fs[outs[i] := Flatten(masked.out)];
      if masked.ok {
        MaskAllSucceeds(fs1, ins, outs, minCode, i + 1);
        InputsKept(fs, ins, outs, i, Flatten(masked.out));
        assert (forall k | i + 1 <= k < |ins| :: ins[k] in fs1 && FastqMask.MaskFile(fs1[ins[k]], minCode).ok) <==>
          (forall k | i + 1 <= k < |ins| :: ins[k] in fs && FastqMask.MaskFile(fs[ins[k]], minCode).ok);
      }
    }
  }

  /**
   * With outputs that are neither inputs nor each other, masking from
   * index `i` on leaves, when it succeeds, each of those outputs holding
   * its input masked; files that are not among those outputs never change.
   */
  lemma {:induction false} MaskAllWrites(fs: map<string, Bytes>, ins: seq<string>, outs: seq<string>, minCode: int, i: nat)
    requires i <= |ins| == |outs|
    requires forall k, j | 0 <= k < |outs| && 0 <= j < |ins| :: outs[k] != ins[j]
    requires forall k, j | 0 <= k < j < |outs| :: outs[k] != outs[j]
    ensures var m := MaskAll(fs, ins, outs, minCode, i);
      && (m.error.None? ==> forall k | i <= k < |outs| ::
            outs[k] in m.files && ins[k] in fs && m.files[outs[k]] == Flatten(FastqMask.MaskFile(fs[ins[k]], minCode).out))
      && (forall p | p in fs && p !in outs[i..] :: p in m.files && m.files[p] == fs[p])
    decreases |ins| - i
  {
    if i < |ins| && ins[i] in fs {
      var masked := FastqMask.MaskFile(fs[ins[i]], minCode);
      var fs1 := fs[outs[i] := Flatten(masked.out)];
      if masked.ok {
        MaskAllWrites(fs1, ins, outs, minCode, i + 1);
        InputsKept(fs, ins, outs, i, Flatten(masked.out));
        var m := MaskAll(fs1, ins, outs, minCode, i + 1);
        assert outs[i] !in outs[i + 1..];
        forall p | p in fs && p !in outs[i..]
          ensures p in m.files && m.files[p] == fs[p]
        {
          assert p != outs[i];
          assert p !in outs[i + 1..];
        }
      }
    }
  }

  /** Writing output `i` leaves every input where it was. */
  lemma InputsKept(fs: map<string, Bytes>, ins: seq<string>, outs: seq<string>, i: nat, bs: Bytes)
    requires i < |ins| == |outs|
    requires forall k, j | 0 <= k < |outs| && 0 <= j < |ins| :: outs[k] != ins[j]
    ensures forall j | 0 <= j < |ins| :: (ins[j] in fs[outs[i] := bs] <==> ins[j] in fs)
    ensures forall j | 0 <= j < |ins| && ins[j] in fs :: fs[outs[i] := bs][ins[j]] == fs[ins[j]]
  {
  }

  /** The loop of mask: _mask on each input in turn, into the output at the same index. */
  method MaskFiles(fs: map<string, Bytes>, ins: seq<string>, outs: seq<string>, minQual: int, encoding: int)
    returns (written: map<string, Bytes>, error: Option<FastqError>)
    requires |ins| == |outs|
    ensures Masked(written, error) == MaskAll(fs, ins, outs, minQual + encoding, 0)
  {
    written := fs;
    var i := 0;
    while i < |ins|
      invariant 0 <= i <= |ins|
      invariant MaskAll(fs, ins, outs, minQual + encoding, 0) == MaskAll(written, ins, outs, minQual + encoding, i)
    {
      var input, output := ins[i], outs[i];
      if input !in written {
        return written, Some(NoSuchFile(input));
      }
      // Opening the output for writing empties it before the input is read.
      var content := if output == input then [] else written[input];
      var masked, ok := FastqMask.Mask(content, minQual, encoding);
      written := written[output := masked];
      if !ok {
        return written, Some(QualLengthDiffers(input));
      }
      i := i + 1;
    }
    error := None;
  }

  /** Masking a file onto itself truncates it before it is read: the file ends up empty. */
  lemma MaskOntoItself(fs: map<string, Bytes>, p: string, minCode: int)
    requires p in fs
    ensures MaskAll(fs, [p], [p], minCode, 0) == Masked(fs[p := []], None)
  {
    FastqMask.MaskNothing(minCode);
  }

  // ---------------------------------------------------------------------
  // The FASTQ files of an input and their accessors
  // ---------------------------------------------------------------------

  /** The fields of a FASTQ input that its operations replace. */
  datatype Files = Files(fq: string, fq2: Option<string>, paired: bool)
  {
    /** Two files always hold paired-end reads. */
    ghost predicate Valid()
    {
      fq2.Some? ==> paired
    }

    function NFastqs(): (n: nat)
      ensures n == 1 || n == 2
      ensures n == 2 <==> fq2.Some?
    {
      if fq2.None? then 1 else 2
    }

    /** Paired-end reads held in one file. */
    function Interleaved(): (b: bool)
      ensures b ==> NFastqs() == 1
      ensures b <==> paired && fq2.None?
    {
      paired && fq2.None?
    }

    /** The one file; an error when there are two. */
    function Fastq(): (r: Result<string, FastqError>)
      ensures r.Success? <==> fq2.None?
      ensures r.Success? ==> r.value == fq
      ensures r.Failure? ==> r.error == TwoFastqs
    {
      if NFastqs() == 2 then Failure(TwoFastqs) else Success(fq)
    }

    /** The error asking for a mate file of a single file raises. */
    function OneFileError(): FastqError
    {
      if Interleaved() then IsInterleaved else NotPairedEnd
    }

    /** Mate file 1; an error when there is only one file. */
    function Fastq1(): (r: Result<string, FastqError>)
      ensures r.Success? <==> fq2.Some?
      ensures r.Success? ==> r.value == fq
      ensures r.Failure? ==> (r.error == IsInterleaved <==> paired) && (r.error == NotPairedEnd <==> !paired)
    {
      if NFastqs() == 1 then Failure(OneFileError()) else Success(fq)
    }

    /** Mate file 2; an error when there is only one file. */
    function Fastq2(): (r: Result<string, FastqError>)
      ensures r.Success? <==> fq2.Some?
      ensures r.Success? ==> Some(r.value) == fq2
      ensures r.Failure? ==> (r.error == IsInterleaved <==> paired) && (r.error == NotPairedEnd <==> !paired)
    {
      if NFastqs() == 1 then Failure(OneFileError()) else Success(fq2.value)
    }

    /** The files, mate 1 first. */
    function FastqFiles(): (files: seq<string>)
      ensures |files| == NFastqs() && files[0] == fq
      ensures fq2.Some? ==> files[1] == fq2.value
    {
      [fq] + (if fq2.Some? then [fq2.value] else [])
    }

    /** The files moved into the temporary directory. */
    function Outputs(toTemp: string -> string): (outs: seq<string>)
      ensures |outs| == |FastqFiles()|
      ensures forall i | 0 <= i < |outs| :: outs[i] == toTemp(FastqFiles()[i])
    {
      var files := FastqFiles();
      seq(|files|, i requires 0 <= i < |files| => toTemp(files[i]))
    }

    /** The sample name of the file, or of the pair of mate files. */
    function SampleName(): Result<string, SampleNames.NameError>
    {
      SampleNames.SampleName(fq, fq2)
    }

    /**
     * The accessors agree: either the single-file view or the two-file
     * view succeeds, never both; the files listed are the ones that view
     * returns; two files are paired-end and not interleaved; and a single
     * file refuses mate access as interleaved exactly when it is paired.
     */
    lemma AccessorsAgree()
      requires Valid()
      ensures Fastq().Success? <==> Fastq1().Failure?
      ensures Fastq1().Success? <==> Fastq2().Success?
      ensures Fastq().Success? ==> FastqFiles() == [Fastq().value]
      ensures Fastq1().Success? ==> FastqFiles() == [Fastq1().value, Fastq2().value]
      ensures Fastq1().Success? ==> paired && !Interleaved()
      ensures Fastq1().Failure? ==> (Fastq1().error == IsInterleaved <==> paired)
    {
    }
  }

  /**
   * interleave on the files: refused when already interleaved, then when
   * there is only one file (fastq1 raises), then when the pair names no
   * sample; otherwise one file in the temporary directory, named after
   * the sample, replaces the pair.
   */
  function InterleaveFiles(f: Files, toTemp: string -> string): (res: (Outcome<FastqError>, Files))
    ensures res.0.Fail? ==> res.1 == f
    ensures res.0.Pass? ==> f.NFastqs() == 2 && res.1.fq2.None? && res.1.paired == f.paired
  {
    if f.Interleaved() then (Fail(AlreadyInterleaved), f)
    else
      match f.Fastq1()
      case Failure(e) => (Fail(e), f)
      case Success(fastq1) =>
        match f.SampleName()
        case Failure(e) => (Fail(BadName(e)), f)
        case Success(sample) => (Pass, Files(toTemp(InterleavedName(sample, fastq1)), None, f.paired))
  }

  /**
   * Interleaving succeeds exactly on two mate files that name a sample; it
   * then leaves one paired-end file named after the sample with the
   * extension of mate file 1, which is interleaved. The errors come in the
   * order the source checks them, and leave the files as they were.
   */
  lemma InterleaveMeaning(f: Files, toTemp: string -> string)
    requires f.Valid()
    ensures var (r, g) := InterleaveFiles(f, toTemp);
      && g.Valid()
      && (r == Fail(AlreadyInterleaved) <==> f.Interleaved())
      && (r == Fail(NotPairedEnd) <==> f.NFastqs() == 1 && !f.paired)
      && (r.Pass? <==> f.NFastqs() == 2 && f.SampleName().Success?)
      && (f.NFastqs() == 2 && f.SampleName().Failure? ==> r == Fail(BadName(f.SampleName().error)))
      && (r.Fail? ==> g == f)
      && (r.Pass? ==> g.Interleaved() && g.Fastq().Success? && g.Fastq1() == Failure(IsInterleaved))
      && (r.Pass? && SplitExt(f.fq).1 != [] ==> g.fq == toTemp(f.SampleName().value + SplitExt(f.fq).1))
      && (r.Pass? && SplitExt(f.fq).1 == [] ==> g.fq == toTemp(f.SampleName().value + "."))
  {
  }

  /** A second interleave is refused and changes nothing. */
  lemma InterleaveTwice(f: Files, toTemp: string -> string)
    requires f.Valid()
    ensures var (r, g) := InterleaveFiles(f, toTemp);
      r.Pass? ==> InterleaveFiles(g, toTemp) == (Fail(AlreadyInterleaved), g)
  {
    InterleaveMeaning(f, toTemp);
  }

  /**
   * mask on the files: masks each file into its output in the temporary
   * directory, then takes the two outputs as the new mate files; a
   * single output cannot be unpacked into two names, and the files stay
   * as they were.
   */
  function MaskFilesOf(f: Files, fs: map<string, Bytes>, toTemp: string -> string, minCode: int)
    : (res: (Outcome<FastqError>, Files, map<string, Bytes>))
    ensures res.0.Fail? ==> res.1 == f
    ensures res.0.Pass? ==> f.NFastqs() == 2 && res.1.FastqFiles() == f.Outputs(toTemp) && res.1.paired == f.paired
    ensures res.0.Pass? ==> forall k | 0 <= k < 2 :: f.Outputs(toTemp)[k] in res.2
    ensures fs.Keys <= res.2.Keys
  {
    var outs := f.Outputs(toTemp);
    var m := MaskAll(fs, f.FastqFiles(), outs, minCode, 0);
    MaskAllKeeps(fs, f.FastqFiles(), outs, minCode, 0);
    if m.error.Some? then (Fail(m.error.value), f, m.files)
    else if |outs| != 2 then (Fail(UnpackMismatch), f, m.files)
    else (Pass, Files(outs[0], Some(outs[1]), f.paired), m.files)
  }

  /**
   * Masking two mate files whose outputs are new paths succeeds exactly
   * when both exist and have matching record lengths; the outputs then
   * become the new mate files. A single file is masked but never
   * replaced, and a failure leaves the files as they were.
   */
  lemma MaskMeaning(f: Files, fs: map<string, Bytes>, toTemp: string -> string, minCode: int)
    requires f.Valid()
    requires forall k, j | 0 <= k < |f.Outputs(toTemp)| && 0 <= j < |f.FastqFiles()| :: f.Outputs(toTemp)[k] != f.FastqFiles()[j]
    ensures var (r, g, _) := MaskFilesOf(f, fs, toTemp, minCode);
      var files := f.FastqFiles();
      && g.Valid()
      && (r.Pass? <==> f.NFastqs() == 2 && forall k | 0 <= k < 2 :: files[k] in fs && FastqMask.MaskFile(fs[files[k]], minCode).ok)
      && (r.Pass? ==> g.FastqFiles() == f.Outputs(toTemp) && g.paired == f.paired)
      && (r.Fail? ==> g == f)
  {
    var outs := f.Outputs(toTemp);
    assert outs[0..] == outs;
    MaskAllSucceeds(fs, f.FastqFiles(), outs, minCode, 0);
  }

  /**
   * What masking writes: when it succeeds each output holds its mate file
   * masked, and in every case the files that are not outputs keep their
   * contents.
   */
  lemma MaskWritten(f: Files, fs: map<string, Bytes>, toTemp: string -> string, minCode: int)
    requires f.Valid()
    requires forall k, j | 0 <= k < |f.Outputs(toTemp)| && 0 <= j < |f.FastqFiles()| :: f.Outputs(toTemp)[k] != f.FastqFiles()[j]
    requires f.NFastqs() == 2 ==> f.Outputs(toTemp)[0] != f.Outputs(toTemp)[1]
    ensures var (r, _, written) := MaskFilesOf(f, fs, toTemp, minCode);
      var files := f.FastqFiles();
      var outs := f.Outputs(toTemp);
      && (r.Pass? ==> forall k | 0 <= k < 2 ::
            (files[k] in fs && outs[k] in written && written[outs[k]] == Flatten(FastqMask.MaskFile(fs[files[k]], minCode).out)))
      && (forall p | p in fs && p !in outs :: p in written && written[p] == fs[p])
  {
    var outs := f.Outputs(toTemp);
    assert outs[0..] == outs;
    MaskAllWrites(fs, f.FastqFiles(), outs, minCode, 0);
  }

  /**
   * The checks of interleave, in the order the source makes them, and the
   * path of the interleaved file when they all pass.
   */
  method InterleaveChecks(files: Files, toTemp: string -> string) returns (r: Outcome<FastqError>, output: string)
    ensures r.Fail? ==> InterleaveFiles(files, toTemp) == (r, files)
    ensures r.Pass? ==> InterleaveFiles(files, toTemp) == (Pass, Files(output, None, files.paired))
  {
    output := files.fq;
    if files.Interleaved() {
      return Fail(AlreadyInterleaved), output;
    }
    var first := files.Fastq1();
    if first.Failure? {
      return Fail(first.error), output;
    }
    var sample := files.SampleName();
    if sample.Failure? {
      return Fail(BadName(sample.error)), output;
    }
    output := toTemp(InterleavedName(sample.value, first.value));
    r := Pass;
  }

  // ---------------------------------------------------------------------
  // The FASTQ input object
  // ---------------------------------------------------------------------

  class FastqBase {
    /** The first (or only) FASTQ file. */
    var fq: string
    /** The second mate file, when there are two. */
    var fq2: Option<string>
    /** Paired-end reads, in two files or interleaved in one. */
    var paired: bool
    /** The offset of the quality codes (33 or 64). */
    const encoding: int

    function State(): Files
      reads this
    {
      Files(fq, fq2, paired)
    }

    ghost predicate Valid()
      reads this
    {
      State().Valid()
    }

    constructor(fastq: string, fastq2: Option<string>, paired: bool, encoding: int)
      ensures Valid()
      ensures State() == Files(fastq, fastq2, paired || fastq2.Some?) && this.encoding == encoding
    {
      fq := fastq;
      fq2 := fastq2;
      this.paired := paired || fastq2.Some?;
      this.encoding := encoding;
    }

    /** interleave, step by step as the source does it; the paste command itself is not modelled. */
    method Interleave(toTemp: string -> string) returns (r: Outcome<FastqError>)
      requires Valid()
      modifies this
      ensures Valid()
      ensures (r, State()) == InterleaveFiles(old(State()), toTemp)
    {
      var output;
      r, output := InterleaveChecks(State(), toTemp);
      if r.Pass? {
        fq, fq2 := output, None;
      }
    }

    /** mask: masks every file, then unpacks the outputs into the two mate files. */
    method Mask(fs: map<string, Bytes>, toTemp: string -> string, minQual: int)
      returns (written: map<string, Bytes>, r: Outcome<FastqError>)
      requires Valid()
      modifies this
      ensures Valid()
      ensures (r, State(), written) == MaskFilesOf(old(State()), fs, toTemp, minQual + encoding)
    {
      var outs := State().Outputs(toTemp);
      var error;
      written, error := MaskFiles(fs, State().FastqFiles(), outs, minQual, encoding);
      if error.Some? {
        return written, Fail(error.value);
      }
      if |outs| != 2 {
        return written, Fail(UnpackMismatch);
      }
      fq, fq2 := outs[0], Some(outs[1]);
      r := Pass;
    }
  }

  /**
   * The life of an input: a pair of mate files interleaves into one file
   * exactly when it names a sample, and the one file then refuses a second
   * interleave; a pair that names no sample is refused both times alike.
   */
  method InterleaveOnce(fastq1: string, fastq2: string, encoding: int, toTemp: string -> string)
    returns (first: Outcome<FastqError>, second: Outcome<FastqError>)
    ensures first.Pass? <==> SampleNames.SampleName(fastq1, Some(fastq2)).Success?
    ensures first.Fail? ==> first == Fail(BadName(SampleNames.SampleName(fastq1, Some(fastq2)).error))
    ensures second == if first.Pass? then Fail(AlreadyInterleaved) else first
  {
    var input := new FastqBase(fastq1, Some(fastq2), false, encoding);
    first := input.Interleave(toTemp);
    InterleaveTwice(Files(fastq1, Some(fastq2), true), toTemp);
    second := input.Interleave(toTemp);
  }
}
