/**
 * Files as the pipeline sees them: byte strings read in binary mode, where
 * iterating over a file or calling readline yields the next line, a line
 * being everything up to and including the next newline byte.
 */
module Lines {

  type byte = b: int | 0 <= b < 256

  type Bytes = seq<byte>

  /** b"\n"[0] */
  const NL: byte := 10

  /** The bytes written when each of `ls` is written in turn. */
  function Flatten(ls: seq<Bytes>): (bs: Bytes)
    ensures |ls| == 0 ==> bs == []
  {
    if |ls| == 0 then [] else ls[0] + Flatten(ls[1..])
  }

  lemma {:induction false} FlattenAppend(a: seq<Bytes>, b: seq<Bytes>)
    ensures Flatten(a + b) == Flatten(a) + Flatten(b)
    decreases |a|
  {
    if |a| == 0 {
      assert a + b == b;
    } else {
      assert (a + b)[1..] == a[1..] + b;
      FlattenAppend(a[1..], b);
    }
  }

  /** The bytes written for up to four lines. */
  lemma FlattenShort(a: Bytes, b: Bytes, c: Bytes, d: Bytes)
    ensures Flatten([a]) == a
    ensures Flatten([a, b]) == a + b
    ensures Flatten([a, b, c]) == a + b + c
    ensures Flatten([a, b, c, d]) == a + b + c + d
  {
    assert [a, b, c, d][1..] == [b, c, d] && [b, c, d][1..] == [c, d] && [c, d][1..] == [d] && [d][1..] == [];
    assert [a, b, c][1..] == [b, c] && [b, c][1..] == [c] && [c][1..] == [];
    assert [a, b][1..] == [b] && [b][1..] == [];
    assert [a][1..] == [];
    assert Flatten([d]) == d;
    assert Flatten([c, d]) == c + d;
    assert Flatten([b, c, d]) == b + (c + d);
    assert Flatten([c]) == c;
    assert Flatten([b, c]) == b + c;
    assert Flatten([a, b, c]) == a + (b + c);
    assert Flatten([a, b, c, d]) == a + (b + (c + d));
  }

  /**
   * A sequence of lines as a file iterator produces it: no line is empty,
   * a newline can only be the last byte of a line, and every line but the
   * last ends with one.
   */
  ghost predicate WellFormed(ls: seq<Bytes>)
  {
    forall i | 0 <= i < |ls| ::
      && |ls[i]| > 0
      && (forall j | 0 <= j < |ls[i]| - 1 :: ls[i][j] != NL)
      && (i < |ls| - 1 ==> ls[i][|ls[i]| - 1] == NL)
  }

  /** Length of the first line of `bs`, searching from index `i`. */
  function LineEnd(bs: Bytes, i: nat): (n: nat)
    requires i < |bs|
    requires forall j | 0 <= j < i :: bs[j] != NL
    ensures i < n <= |bs|
    ensures forall j | 0 <= j < n - 1 :: bs[j] != NL
    ensures n < |bs| ==> bs[n - 1] == NL
    decreases |bs| - i
  {
    if bs[i] == NL || i == |bs| - 1 then i + 1 else LineEnd(bs, i + 1)
  }

  /** A line ahead of well-formed lines keeps them well-formed when it ends where a line ends. */
  lemma ConsWellFormed(first: Bytes, rest: seq<Bytes>)
    requires |first| > 0 && forall j | 0 <= j < |first| - 1 :: first[j] != NL
    requires |rest| > 0 ==> first[|first| - 1] == NL
    requires WellFormed(rest)
    ensures WellFormed([first] + rest)
  {
    var ls := [first] + rest;
    forall i | 0 < i < |ls|
      ensures ls[i] == rest[i - 1]
    {
    }
  }

  /** The lines that iterating over a file holding `bs` yields. */
  function SplitLines(bs: Bytes): (ls: seq<Bytes>)
    ensures Flatten(ls) == bs
    ensures WellFormed(ls)
    decreases |bs|
  {
    if |bs| == 0 then []
    else
      var n := LineEnd(bs, 0);
      var rest := SplitLines(bs[n..]);
      assert bs == bs[..n] + bs[n..];
      ConsWellFormed(bs[..n], rest);
      [bs[..n]] + rest
  }

  /** Reading back the bytes written from well-formed lines yields those lines. */
  lemma {:induction false} SplitFlatten(ls: seq<Bytes>)
    requires WellFormed(ls)
    ensures SplitLines(Flatten(ls)) == ls
    decreases |ls|
  {
    if |ls| > 0 {
      var bs := Flatten(ls);
      var first := ls[0];
      assert bs == first + Flatten(ls[1..]);
      assert WellFormed(ls[1..]) by {
        forall i | 0 <= i < |ls[1..]|
          ensures |ls[1..][i]| > 0
        {
          assert ls[1..][i] == ls[i + 1];
        }
      }
      var n := LineEnd(bs, 0);
      assert bs[..|first|] == first;
      assert n == |first|;
      assert bs[n..] == Flatten(ls[1..]);
      SplitFlatten(ls[1..]);
      assert ls == [first] + ls[1..];
    }
  }

  /** What readline returns when the next line is line `i`: the empty string past the end. */
  function LineAt(ls: seq<Bytes>, i: nat): (l: Bytes)
    ensures i < |ls| ==> l == ls[i]
    ensures i >= |ls| ==> l == []
  {
    if i < |ls| then ls[i] else []
  }
}
