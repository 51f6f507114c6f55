/**
 * The parts of Python's posixpath that the sample-name derivation uses:
 * str.endswith, str.rfind, os.path.basename and os.path.splitext.
 */
module Paths {

  /** s.endswith(suffix) */
  predicate EndsWith(s: string, suffix: string)
  {
    |suffix| <= |s| && s[|s| - |suffix|..] == suffix
  }

  /** s.rfind(c): the index of the last `c` in `s`, or -1 when there is none. */
  function RFind(s: string, c: char): (i: int)
    ensures -1 <= i < |s|
    ensures 0 <= i ==> s[i] == c
    ensures forall j | i < j < |s| :: s[j] != c
  {
    if |s| == 0 then -1
    else if s[|s| - 1] == c then |s| - 1
    else RFind(s[..|s| - 1], c)
  }

  /** os.path.basename: everything after the last slash. */
  function Basename(p: string): (b: string)
    ensures forall k | 0 <= k < |b| :: b[k] != '/'
    ensures EndsWith(p, b)
    ensures |b| == |p| || p[|p| - |b| - 1] == '/'
  {
    p[RFind(p, '/') + 1..]
  }

  predicate AllDots(s: string)
  {
    forall k | 0 <= k < |s| :: s[k] == '.'
  }

  /**
   * The last path component of `p` has an extension: its last dot comes
   * after the last slash, and something other than dots stands before that
   * dot in the component (".fq" and "..fq" have no extension).
   */
  predicate HasExtension(p: string)
  {
    var sep, dot := RFind(p, '/'), RFind(p, '.');
    dot > sep && !AllDots(p[sep + 1..dot])
  }

  /** os.path.splitext: splits at the last dot of the last path component when it has an extension. */
  function SplitExt(p: string): (parts: (string, string))
    ensures parts.0 + parts.1 == p
    ensures parts.1 != [] ==> parts.1[0] == '.'
    ensures forall k | 0 < k < |parts.1| :: parts.1[k] != '.' && parts.1[k] != '/'
    ensures parts.1 != [] <==> HasExtension(p)
    ensures parts.1 != [] ==> |parts.0| == RFind(p, '.')
  {
    var sep := RFind(p, '/');
    var dot := RFind(p, '.');
    if HasExtension(p) then
      ExtensionChars(p, sep, dot);
      (p[..dot], p[dot..])
    else (p, "")
  }

  /** After the last dot, which follows the last slash, there is neither. */
  lemma ExtensionChars(p: string, sep: int, dot: int)
    requires sep == RFind(p, '/') && dot == RFind(p, '.') && sep < dot
    ensures p[..dot] + p[dot..] == p
    ensures p[dot..] != [] && p[dot..][0] == '.'
    ensures forall k | 0 < k < |p[dot..]| :: p[dot..][k] != '.' && p[dot..][k] != '/'
  {
    assert p[..dot] + p[dot..] == p;
    forall k | 0 < k < |p[dot..]|
      ensures p[dot..][k] != '.' && p[dot..][k] != '/'
    {
      assert p[dot..][k] == p[dot + k];
    }
  }

  /** The extensions a FASTQ file name may end with. */
  const FastqExtensions: seq<string> := [".fastq", ".fq"]

  predicate HasFastqExtension(p: string)
  {
    exists ext | ext in FastqExtensions :: EndsWith(p, ext)
  }

  /** A suffix without a slash survives taking the base name. */
  lemma BasenameEndsWith(p: string, ext: string)
    requires EndsWith(p, ext)
    requires forall k | 0 <= k < |ext| :: ext[k] != '/'
    ensures EndsWith(Basename(p), ext)
  {
    assert Basename(p)[|Basename(p)| - |ext|..] == p[|p| - |ext|..];
  }

  /**
   * A path that ends with a FASTQ extension has a base name that ends with
   * it too: the loop that strips further suffixes from the base name until
   * an extension is left never runs.
   */
  lemma BasenameKeepsExtension(p: string)
    requires HasFastqExtension(p)
    ensures HasFastqExtension(Basename(p))
  {
    var ext :| ext in FastqExtensions && EndsWith(p, ext);
    assert ext == ".fastq" || ext == ".fq";
    assert forall k | 0 <= k < |ext| :: ext[k] != '/';
    BasenameEndsWith(p, ext);
  }

  /** The file name with its directory and extension removed. */
  function Stem(p: string): (stem: string)
    ensures |stem| <= |Basename(p)| && Basename(p)[..|stem|] == stem
  {
    SplitExt(Basename(p)).0
  }

  /** The last `c` in `s` is the one at `i` when none follows it. */
  lemma RFindAt(s: string, c: char, i: int)
    requires 0 <= i < |s| && s[i] == c
    requires forall j | i < j < |s| :: s[j] != c
    ensures RFind(s, c) == i
  {
  }

  /**
   * The stem of a path that ends with a dot-extension is its base name
   * minus that extension, except for a base name that is only dots before
   * the extension, which is kept whole.
   */
  lemma StemDropsSuffix(p: string, ext: string)
    requires EndsWith(p, ext) && |ext| > 0 && ext[0] == '.'
    requires forall k | 0 <= k < |ext| :: ext[k] != '/'
    requires forall k | 0 < k < |ext| :: ext[k] != '.'
    ensures var b := Basename(p);
      if AllDots(b[..|b| - |ext|]) then Stem(p) == b
      else Stem(p) + ext == b && SplitExt(b).1 == ext
  {
    BasenameEndsWith(p, ext);
    var b := Basename(p);
    var n := |b| - |ext|;
    assert b[n..] == ext;
    assert RFind(b, '/') == -1;
    forall j | n < j < |b|
      ensures b[j] != '.'
    {
      assert b[j] == ext[j - n];
    }
    RFindAt(b, '.', n);
    assert b[0..n] == b[..n];
  }

  /** The same for the two FASTQ extensions. */
  lemma StemDropsExtension(p: string, ext: string)
    requires ext in FastqExtensions && EndsWith(p, ext)
    ensures var b := Basename(p);
      if AllDots(b[..|b| - |ext|]) then Stem(p) == b
      else Stem(p) + ext == b && SplitExt(b).1 == ext
  {
    assert ext == ".fastq" || ext == ".fq";
    assert forall k | 0 <= k < |ext| :: ext[k] != '/';
    assert forall k | 0 < k < |ext| :: ext[k] != '.';
    StemDropsSuffix(p, ext);
  }
}
