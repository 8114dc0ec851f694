/**
 * Byte sequences and the two primitives the codec is built from: the forward
 * scan for the first occurrence of a delimiter byte, and the split of a byte
 * slice on every occurrence of a delimiter (the behaviour of `<[u8]>::split`).
 */
module Bytes {
  import opened Wrappers

  newtype byte = b: int | 0 <= b < 256

  /** Number of occurrences of `d` in `s`. */
  function Count(s: seq<byte>, d: byte): (n: nat)
    ensures n == 0 <==> d !in s
    ensures n <= |s|
  {
    if |s| == 0 then 0
    else (if s[0] == d then 1 else 0) + Count(s[1..], d)
  }

  /** Occurrences add up over a concatenation. */
  lemma {:induction false} CountConcat(a: seq<byte>, b: seq<byte>, d: byte)
    ensures Count(a + b, d) == Count(a, d) + Count(b, d)
  {
    if |a| > 0 {
      assert (a + b)[1..] == a[1..] + b;
      CountConcat(a[1..], b, d);
    } else {
      assert a + b == b;
    }
  }

  /** Index of the first occurrence of `d` in `s`, scanning from index 0. */
  function FirstIndex(s: seq<byte>, d: byte): (r: Option<nat>)
    ensures r.None? <==> d !in s
    ensures r.Some? ==> r.value < |s| && s[r.value] == d && d !in s[..r.value]
    decreases |s|
  {
    if |s| == 0 then None
    else if s[0] == d then Some(0)
    else match FirstIndex(s[1..], d)
      case None => None
      case Some(i) =>
        assert s[..i + 1] == [s[0]] + s[1..][..i];
        Some(i + 1)
  }

  /** Cutting at the first `d` removes exactly one occurrence of `d`. */
  lemma CutAtFirst(s: seq<byte>, d: byte)
    requires d in s
    ensures var i := FirstIndex(s, d).value;
      s == s[..i] + [d] + s[i + 1..] && Count(s, d) == Count(s[i + 1..], d) + 1
  {
    var i := FirstIndex(s, d).value;
    assert s == s[..i] + [d] + s[i + 1..];
    CountConcat(s[..i] + [d], s[i + 1..], d);
    CountConcat(s[..i], [d], d);
  }

  /** The first occurrence of `d` is at `|a|` whenever `a` is free of `d`. */
  lemma FirstIndexAfterPrefix(a: seq<byte>, rest: seq<byte>, d: byte)
    requires d !in a
    ensures FirstIndex(a + [d] + rest, d) == Some(|a|)
  {
    var s := a + [d] + rest;
    assert s[..|a|] == a;
    assert s[|a|] == d;
  }

  /**
   * Splits `s` on every occurrence of `d`; the delimiters are dropped.
   * Like `<[u8]>::split`, `n` delimiters give `n + 1` chunks (the empty slice
   * gives one empty chunk), and no chunk contains `d`.
   */
  function Split(s: seq<byte>, d: byte): (chunks: seq<seq<byte>>)
    ensures |chunks| == Count(s, d) + 1
    ensures forall k :: 0 <= k < |chunks| ==> d !in chunks[k]
    decreases |s|
  {
    match FirstIndex(s, d)
    case None => [s]
    case Some(i) =>
      CutAtFirst(s, d);
      [s[..i]] + Split(s[i + 1..], d)
  }

  /** The first chunk is everything before the first `d`; the others are the split of what follows it. */
  lemma SplitAtFirst(s: seq<byte>, d: byte)
    requires d in s
    ensures var i := FirstIndex(s, d).value;
      Split(s, d) == [s[..i]] + Split(s[i + 1..], d)
  {
  }

  /** Joins `chunks` with one `d` between neighbours and none at the end. */
  function Join(chunks: seq<seq<byte>>, d: byte): seq<byte>
  {
    if |chunks| == 0 then []
    else if |chunks| == 1 then chunks[0]
    else chunks[0] + [d] + Join(chunks[1..], d)
  }

  /** Joining the chunks of a split gives back the input. */
  lemma {:induction false} JoinSplit(s: seq<byte>, d: byte)
    ensures Join(Split(s, d), d) == s
    decreases |s|
  {
    match FirstIndex(s, d)
    case None =>
    case Some(i) =>
      var tail := Split(s[i + 1..], d);
      JoinSplit(s[i + 1..], d);
      assert Split(s, d) == [s[..i]] + tail;
      assert s == s[..i] + [d] + s[i + 1..];
  }

  /** Splitting a join of delimiter-free chunks gives back the chunks. */
  lemma {:induction false} SplitJoin(chunks: seq<seq<byte>>, d: byte)
    requires |chunks| > 0
    requires forall k :: 0 <= k < |chunks| ==> d !in chunks[k]
    ensures Split(Join(chunks, d), d) == chunks
    decreases |chunks|
  {
    if |chunks| == 1 {
      assert d !in chunks[0];
    } else {
      var rest := Join(chunks[1..], d);
      FirstIndexAfterPrefix(chunks[0], rest, d);
      var s := chunks[0] + [d] + rest;
      assert s[..|chunks[0]|] == chunks[0];
      assert s[|chunks[0]| + 1..] == rest;
      SplitAtFirst(s, d);
      SplitJoin(chunks[1..], d);
      assert chunks == [chunks[0]] + chunks[1..];
    }
  }
}
