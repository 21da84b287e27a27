/** String helpers used to build user-facing messages. */
module Strings {

  /** `needle` occurs in `hay` starting at position `at`. */
  predicate OccursAt(needle: string, hay: string, at: nat)
  {
    at + |needle| <= |hay| && forall k :: 0 <= k < |needle| ==> hay[at + k] == needle[k]
  }

  /** Where part `i` starts in `Join(parts, sep)`: the lengths of the earlier
      parts, each followed by one separator. */
  function Offset(parts: seq<string>, sep: string, i: nat): nat
    requires i <= |parts|
  {
    if i == 0 then 0 else |parts[0]| + |sep| + Offset(parts[1..], sep, i - 1)
  }

  /** An occurrence inside `rest` is still there after `pre` is put in front. */
  lemma OccursAfterPrefix(needle: string, pre: string, rest: string, at: nat)
    requires OccursAt(needle, rest, at)
    ensures OccursAt(needle, pre + rest, |pre| + at)
  {
  }

  /** Python's `sep.join(parts)`: the parts in order with `sep` between
      neighbours. The contract pins down every character of the result. */
  function Join(parts: seq<string>, sep: string): (r: string)
    ensures |parts| == 0 ==> r == ""
    ensures |parts| > 0 ==> |r| == Offset(parts, sep, |parts| - 1) + |parts[|parts| - 1]|
    ensures forall i :: 0 <= i < |parts| ==> OccursAt(parts[i], r, Offset(parts, sep, i))
    ensures forall i :: 0 <= i < |parts| - 1 ==> OccursAt(sep, r, Offset(parts, sep, i) + |parts[i]|)
  {
    if |parts| == 0 then ""
    else if |parts| == 1 then
      parts[0]
    else
      var rest := Join(parts[1..], sep);
      JoinStructure(parts, sep, rest);
      parts[0] + sep + rest
  }

  /** The step of `Join`'s contract: the first part, then the separator, then
      the join of the remaining parts shifted by both. */
  lemma JoinStructure(parts: seq<string>, sep: string, rest: string)
    requires |parts| >= 2
    requires |rest| == Offset(parts[1..], sep, |parts| - 2) + |parts[|parts| - 1]|
    requires forall i :: 0 <= i < |parts| - 1 ==> OccursAt(parts[1..][i], rest, Offset(parts[1..], sep, i))
    requires forall i :: 0 <= i < |parts| - 2 ==> OccursAt(sep, rest, Offset(parts[1..], sep, i) + |parts[1..][i]|)
    ensures |parts[0] + sep + rest| == Offset(parts, sep, |parts| - 1) + |parts[|parts| - 1]|
    ensures forall i :: 0 <= i < |parts| ==> OccursAt(parts[i], parts[0] + sep + rest, Offset(parts, sep, i))
    ensures forall i :: 0 <= i < |parts| - 1 ==> OccursAt(sep, parts[0] + sep + rest, Offset(parts, sep, i) + |parts[i]|)
  {
    var pre := parts[0] + sep;
    assert pre + rest == parts[0] + sep + rest;
    forall i | 0 <= i < |parts|
      ensures OccursAt(parts[i], pre + rest, Offset(parts, sep, i))
    {
      if i == 0 {
      } else {
        assert parts[1..][i - 1] == parts[i];
        OccursAfterPrefix(parts[i], pre, rest, Offset(parts[1..], sep, i - 1));
      }
    }
    forall i | 0 <= i < |parts| - 1
      ensures OccursAt(sep, pre + rest, Offset(parts, sep, i) + |parts[i]|)
    {
      if i == 0 {
      } else {
        assert parts[1..][i - 1] == parts[i];
        OccursAfterPrefix(sep, pre, rest, Offset(parts[1..], sep, i - 1) + |parts[i]|);
      }
    }
  }

  /** `Join`'s parts seen through a fixed prefix: every offset moves right by
      the prefix length. */
  lemma {:induction false} PartsAfterPrefix(prefix: string, parts: seq<string>, sep: string)
    ensures forall i :: 0 <= i < |parts| ==> OccursAt(parts[i], prefix + Join(parts, sep), |prefix| + Offset(parts, sep, i))
  {
    var joined := Join(parts, sep);
    forall i | 0 <= i < |parts|
      ensures OccursAt(parts[i], prefix + joined, |prefix| + Offset(parts, sep, i))
    {
      OccursAfterPrefix(parts[i], prefix, joined, Offset(parts, sep, i));
    }
  }

  /** `Join`'s separators seen through a fixed prefix. */
  lemma {:induction false} SeparatorsAfterPrefix(prefix: string, parts: seq<string>, sep: string)
    ensures forall i :: 0 <= i < |parts| - 1 ==> OccursAt(sep, prefix + Join(parts, sep), |prefix| + Offset(parts, sep, i) + |parts[i]|)
  {
    var joined := Join(parts, sep);
    forall i | 0 <= i < |parts| - 1
      ensures OccursAt(sep, prefix + joined, |prefix| + Offset(parts, sep, i) + |parts[i]|)
    {
      OccursAfterPrefix(sep, prefix, joined, Offset(parts, sep, i) + |parts[i]|);
    }
  }
}
