/** Go strings are byte strings. This module gives them a Dafny shape, and it models
    the two `strings` helpers the token extractor relies on: `strings.Index`
    (first occurrence of a separator) and `strings.Split` (split around every
    non-overlapping occurrence, scanning left to right). */
module ByteStrings {
  import opened Wrappers

  newtype byte = x: int | 0 <= x < 256

  type Bytes = seq<byte>

  /** The bytes of an ASCII literal (every literal of the program is ASCII). */
  function Ascii(s: string): (b: Bytes)
    ensures |b| == |s|
    ensures forall i :: 0 <= i < |s| && s[i] as int < 256 ==> b[i] as int == s[i] as int
  {
    seq(|s|, i requires 0 <= i < |s| => (s[i] as int % 256) as byte)
  }

  /** `pat` occurs in `s` starting at position `i`. */
  predicate OccursAt(s: Bytes, pat: Bytes, i: nat) {
    i + |pat| <= |s| && s[i..i + |pat|] == pat
  }

  /** No occurrence of `pat` starts at or after `from`. */
  predicate AbsentFrom(s: Bytes, pat: Bytes, from: nat) {
    forall j :: from <= j <= |s| ==> !OccursAt(s, pat, j)
  }

  /** The first occurrence of `pat` at or after `from`. */
  function IndexFrom(s: Bytes, pat: Bytes, from: nat): (r: Option<nat>)
    ensures r.None? ==> AbsentFrom(s, pat, from)
    ensures r.Some? ==> from <= r.value && OccursAt(s, pat, r.value)
    ensures r.Some? ==> forall j :: from <= j < r.value ==> !OccursAt(s, pat, j)
    decreases |s| - from
  {
    if from + |pat| > |s| then None
    else if OccursAt(s, pat, from) then Some(from)
    else IndexFrom(s, pat, from + 1)
  }

  /** `strings.Index`: the first occurrence of `pat` in `s`. */
  function Index(s: Bytes, pat: Bytes): Option<nat> {
    IndexFrom(s, pat, 0)
  }

  /** `strings.Join`: the parts glued together with `sep` between neighbours. */
  function Join(parts: seq<Bytes>, sep: Bytes): Bytes
    requires |parts| > 0
  {
    if |parts| == 1 then parts[0] else parts[0] + sep + Join(parts[1..], sep)
  }

  /** `strings.Split` for a non-empty separator, on the part of `s` from `from`
      onwards: cut at the next occurrence and split what follows it. Go slices
      the string at each cut; this keeps positions in the whole string instead. */
  function SplitFrom(s: Bytes, sep: Bytes, from: nat): (parts: seq<Bytes>)
    requires |sep| > 0 && from <= |s|
    ensures |parts| > 0
    ensures |parts| > 1 <==> IndexFrom(s, sep, from).Some?
    decreases |s| - from
  {
    match IndexFrom(s, sep, from)
    case None => [s[from..]]
    case Some(m) => [s[from..m]] + SplitFrom(s, sep, m + |sep|)
  }

  /** `strings.Split(s, sep)` for a non-empty separator. */
  function Split(s: Bytes, sep: Bytes): (parts: seq<Bytes>)
    requires |sep| > 0
    ensures |parts| > 0
    ensures |parts| > 1 <==> Index(s, sep).Some?
  {
    SplitFrom(s, sep, 0)
  }

  /** Joining the parts back with the separator gives the string that was split. */
  lemma {:induction false} SplitJoin(s: Bytes, sep: Bytes, from: nat)
    requires |sep| > 0 && from <= |s|
    ensures Join(SplitFrom(s, sep, from), sep) == s[from..]
    decreases |s| - from
  {
    match IndexFrom(s, sep, from)
    case None =>
    case Some(m) =>
      SplitJoin(s, sep, m + |sep|);
      var parts := SplitFrom(s, sep, from);
      assert parts[1..] == SplitFrom(s, sep, m + |sep|);
      assert s[from..] == s[from..m] + sep + s[m + |sep|..];
  }

  /** Where a part that starts at `start` stops: at the next occurrence of the
      separator, or at the end of `s` when there is none. */
  function PartEnd(s: Bytes, sep: Bytes, start: nat): (stop: nat)
    requires start <= |s|
    ensures start <= stop <= |s|
    ensures stop < |s| ==> OccursAt(s, sep, stop)
    ensures forall j :: start <= j < stop ==> !OccursAt(s, sep, j)
  {
    match IndexFrom(s, sep, start)
    case None => |s|
    case Some(j) => j
  }

  /** The part after the first separator runs up to the next separator, or to
      the end of `s` when there is none. */
  lemma SplitSecondPart(s: Bytes, sep: Bytes, m: nat)
    requires |sep| > 0
    requires Index(s, sep) == Some(m)
    ensures m + |sep| <= |s|
    ensures |Split(s, sep)| > 1
    ensures Split(s, sep)[1] == s[m + |sep|..PartEnd(s, sep, m + |sep|)]
  {
    assert Split(s, sep) == [s[..m]] + SplitFrom(s, sep, m + |sep|);
  }

  /** No part of a split still holds the separator. */
  lemma {:induction false} SplitPartsFree(s: Bytes, sep: Bytes, from: nat)
    requires |sep| > 0 && from <= |s|
    ensures forall k :: 0 <= k < |SplitFrom(s, sep, from)| ==> AbsentFrom(SplitFrom(s, sep, from)[k], sep, 0)
    decreases |s| - from
  {
    var parts := SplitFrom(s, sep, from);
    match IndexFrom(s, sep, from)
    case None =>
      LastPartFree(s, sep, from);
    case Some(m) =>
      SplitPartsFree(s, sep, m + |sep|);
      PartBeforeSeparatorFree(s, sep, from, m);
      var rest := SplitFrom(s, sep, m + |sep|);
      assert parts == [s[from..m]] + rest;
      forall k | 0 <= k < |parts| ensures AbsentFrom(parts[k], sep, 0) {
        if k > 0 {
          assert parts[k] == rest[k - 1];
        }
      }
  }

  /** With no separator from `from` on, the rest of the text holds none. */
  lemma LastPartFree(s: Bytes, sep: Bytes, from: nat)
    requires from <= |s| && IndexFrom(s, sep, from).None?
    ensures AbsentFrom(s[from..], sep, 0)
  {
    forall j | 0 <= j <= |s| - from ensures !OccursAt(s[from..], sep, j) {
      OccursInSuffix(s, sep, from, j);
    }
  }

  /** The text up to the next separator holds no separator. */
  lemma PartBeforeSeparatorFree(s: Bytes, sep: Bytes, from: nat, m: nat)
    requires |sep| > 0 && from <= |s| && IndexFrom(s, sep, from) == Some(m)
    ensures from <= m <= |s| && AbsentFrom(s[from..m], sep, 0)
  {
    forall j | 0 <= j <= m - from ensures !OccursAt(s[from..m], sep, j) {
      if OccursAt(s[from..m], sep, j) {
        assert s[from..m][j..j + |sep|] == s[from + j..from + j + |sep|];
        assert OccursAt(s, sep, from + j);
      }
    }
  }

  /** An occurrence in a suffix is an occurrence in the whole string, shifted. */
  lemma OccursInSuffix(s: Bytes, pat: Bytes, k: nat, j: nat)
    requires k <= |s|
    ensures OccursAt(s[k..], pat, j) == OccursAt(s, pat, k + j)
  {
    if j + |pat| <= |s| - k {
      assert s[k..][j..j + |pat|] == s[k + j..k + j + |pat|];
    }
  }

  /** A stretch with no occurrence can be skipped when searching. */
  lemma {:induction false} IndexFromSkip(s: Bytes, pat: Bytes, lo: nat, hi: nat)
    requires lo <= hi
    requires forall j :: lo <= j < hi ==> !OccursAt(s, pat, j)
    ensures IndexFrom(s, pat, lo) == IndexFrom(s, pat, hi)
    decreases hi - lo
  {
    if lo < hi && lo + |pat| <= |s| {
      IndexFromSkip(s, pat, lo + 1, hi);
    }
  }
}
