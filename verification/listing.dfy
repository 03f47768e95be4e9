/** Python's `sep.join(parts)`, used to list cache keys in an error message. */
module Listing {

  /** `x` occurs in `s` as the contiguous run starting at index `k`. */
  predicate OccursAt(x: string, s: string, k: int) {
    0 <= k <= |s| - |x| && s[k..k + |x|] == x
  }

  /** `x` occurs somewhere in `s` as a contiguous run. */
  ghost predicate IsInfix(x: string, s: string) {
    exists k :: OccursAt(x, s, k)
  }

  /** The parts with `sep` between each neighbouring pair. */
  function Join(parts: seq<string>, sep: string): (r: string)
    ensures parts == [] ==> r == []
    ensures |parts| == 1 ==> r == parts[0]
  {
    if |parts| == 0 then []
    else if |parts| == 1 then parts[0]
    else parts[0] + sep + Join(parts[1..], sep)
  }

  /** Every part shows up in the joined text. */
  lemma {:induction false} JoinContainsPart(parts: seq<string>, sep: string, i: nat)
    requires i < |parts|
    ensures IsInfix(parts[i], Join(parts, sep))
  {
    var r := Join(parts, sep);
    if i == 0 {
      assert OccursAt(parts[0], r, 0);
    } else {
      JoinContainsPart(parts[1..], sep, i - 1);
      var tail := Join(parts[1..], sep);
      var k :| OccursAt(parts[i], tail, k);
      var off := |parts[0]| + |sep|;
      assert r == parts[0] + sep + tail;
      assert r[off + k..off + k + |parts[i]|] == tail[k..k + |parts[i]|];
      assert OccursAt(parts[i], r, off + k);
    }
  }

  /** The joined text is as long as all parts plus one separator per gap. */
  lemma {:induction false} JoinLength(parts: seq<string>, sep: string)
    requires parts != []
    ensures |Join(parts, sep)| == TotalLength(parts) + (|parts| - 1) * |sep|
  {
    if |parts| > 1 {
      JoinLength(parts[1..], sep);
    }
  }

  function TotalLength(parts: seq<string>): nat {
    if parts == [] then 0 else |parts[0]| + TotalLength(parts[1..])
  }

  lemma TotalLengthPrefix(parts: seq<string>, i: nat)
    requires 0 < i <= |parts|
    ensures TotalLength(parts[..i]) == |parts[0]| + TotalLength(parts[1..][..i - 1])
  {
    assert parts[..i][1..] == parts[1..][..i - 1];
  }

  /** Where part `i` starts in the joined text: after the parts before it
      and one separator for each of them. */
  function PartOffset(parts: seq<string>, sep: string, i: nat): nat
    requires i <= |parts|
  {
    TotalLength(parts[..i]) + i * |sep|
  }

  lemma PartOffsetStep(parts: seq<string>, sep: string, i: nat)
    requires 0 < i <= |parts|
    ensures PartOffset(parts, sep, i) == |parts[0]| + |sep| + PartOffset(parts[1..], sep, i - 1)
  {
    TotalLengthPrefix(parts, i);
    assert i * |sep| == |sep| + (i - 1) * |sep|;
  }

  /** An occurrence in `s` is one in any text that ends with `s`. */
  lemma OccursInSuffix(x: string, a: string, s: string, k: int)
    requires OccursAt(x, s, k)
    ensures OccursAt(x, a + s, |a| + k)
  {
    assert (a + s)[|a| + k..|a| + k + |x|] == s[k..k + |x|];
  }

  /** Part `i` sits at its offset in the joined text. With `JoinSeparatorAt`
      and `JoinLength` this fixes the text, order included. */
  lemma {:induction false} JoinPartAt(parts: seq<string>, sep: string, i: nat)
    requires i < |parts|
    ensures OccursAt(parts[i], Join(parts, sep), PartOffset(parts, sep, i))
    decreases |parts|
  {
    if i == 0 {
      assert parts[..0] == [];
      assert Join(parts, sep)[..|parts[0]|] == parts[0];
    } else {
      JoinPartAt(parts[1..], sep, i - 1);
      PartOffsetStep(parts, sep, i);
      OccursInSuffix(parts[i], parts[0] + sep, Join(parts[1..], sep), PartOffset(parts[1..], sep, i - 1));
    }
  }

  /** A separator follows every part but the last. */
  lemma {:induction false} JoinSeparatorAt(parts: seq<string>, sep: string, i: nat)
    requires i + 1 < |parts|
    ensures OccursAt(sep, Join(parts, sep), PartOffset(parts, sep, i) + |parts[i]|)
    decreases |parts|
  {
    var tail := Join(parts[1..], sep);
    if i == 0 {
      assert parts[..0] == [];
      assert (parts[0] + sep + tail)[|parts[0]|..|parts[0]| + |sep|] == sep;
    } else {
      JoinSeparatorAt(parts[1..], sep, i - 1);
      PartOffsetStep(parts, sep, i);
      OccursInSuffix(sep, parts[0] + sep, tail, PartOffset(parts[1..], sep, i - 1) + |parts[i]|);
    }
  }

  /** A part added at the end lands after the text so far, behind one separator. */
  lemma {:induction false} JoinAppend(parts: seq<string>, sep: string, p: string)
    requires parts != []
    ensures Join(parts + [p], sep) == Join(parts, sep) + sep + p
    decreases |parts|
  {
    if |parts| == 1 {
      assert (parts + [p])[1..] == [p];
    } else {
      assert (parts + [p])[1..] == parts[1..] + [p];
      JoinAppend(parts[1..], sep, p);
    }
  }
}
