/**
 * The pure text helpers used when rendering listings: `truncate`, `boldCut`
 * and `chunkLines` (before the chunks are joined with newlines).
 */
module Format {
  import opened Basics

  /** Cap on the have/want excerpt in a list or search line. */
  const ExcerptLimit: nat := 80

  /** `truncate(s, n)`: the first `n` characters of `s`, or all of it. */
  function Truncate(s: string, n: nat): (r: string)
    ensures |r| == Min(|s|, n)
    ensures r == s[..|r|]
  {
    if |s| <= n then s else s[..n]
  }

  /** `boldCut(s)`: the first 80 characters of `s` in Markdown bold markers. */
  function BoldCut(s: string): (r: string)
    ensures |r| == Min(|s|, ExcerptLimit) + 4
    ensures r[..2] == "**" && r[|r| - 2..] == "**"
    ensures r[2..|r| - 2] == s[..|r| - 4]
  {
    "**" + Truncate(s, ExcerptLimit) + "**"
  }

  /** All chunks laid end to end. */
  function Flatten<T>(chunks: seq<seq<T>>): (r: seq<T>)
  {
    if chunks == [] then [] else Flatten(chunks[..|chunks| - 1]) + chunks[|chunks| - 1]
  }

  /** `chunkLines(arr, per)`: consecutive groups of `per` lines, the last one
      possibly shorter. A `per` of zero or less would never advance, so the
      caller must pass a positive size (every call passes 10). */
  method ChunkLines(lines: seq<string>, per: nat) returns (chunks: seq<seq<string>>)
    requires per > 0
    ensures |chunks| == (|lines| + per - 1) / per
    ensures Flatten(chunks) == lines
    ensures forall k :: 0 <= k < |chunks| ==> 0 < |chunks[k]| <= per
    ensures forall k :: 0 <= k < |chunks| - 1 ==> |chunks[k]| == per
  {
    chunks := [];
    var i := 0;
    while i < |lines|
      invariant i == |chunks| * per
      invariant |chunks| == 0 || (|chunks| - 1) * per < |lines|
      invariant Flatten(chunks) == lines[..Min(i, |lines|)]
      invariant forall k :: 0 <= k < |chunks| ==> |chunks[k]| == per || (k == |chunks| - 1 && 0 < |chunks[k]| < per && i >= |lines|)
      invariant forall k :: 0 <= k < |chunks| ==> 0 < |chunks[k]|
      decreases |lines| - i
    {
      var chunk := lines[i..Min(i + per, |lines|)];
      assert lines[..Min(i + per, |lines|)] == lines[..i] + chunk;
      chunks := chunks + [chunk];
      i := i + per;
    }
    assert lines[..Min(i, |lines|)] == lines;
    DivCount(|lines|, per, |chunks|);
  }

  /** `n` items cut into groups of `per` need `ceil(n / per)` groups. */
  lemma DivCount(n: nat, per: nat, c: nat)
    requires per > 0
    requires c * per >= n && (c == 0 || (c - 1) * per < n)
    ensures c == (n + per - 1) / per
  {
    var q := (n + per - 1) / per;
    var r := (n + per - 1) % per;
    assert n + per - 1 == q * per + r && 0 <= r < per;
    if c > q {
      MulMonotone(q, c - 1, per);
    } else if c < q {
      MulMonotone(c, q - 1, per);
    }
  }

  lemma MulMonotone(a: int, b: int, m: nat)
    requires a <= b
    ensures a * m <= b * m
  {
    assert b * m - a * m == (b - a) * m;
  }
}
