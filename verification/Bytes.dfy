/** Bytes and plain substring search, as std::search and std::find do it for a Range. */
module Bytes {
  import opened Common

  type byte = b: int | 0 <= b < 256

  predicate IsSpace(c: byte) { IsSpaceCode(c) }

  const CRLF: seq<byte> := [13, 10]

  const TWO_64: int := 0x1_0000_0000_0000_0000

  ghost predicate MatchAt(s: seq<byte>, p: seq<byte>, i: int) {
    0 <= i && i + |p| <= |s| && s[i..i + |p|] == p
  }

  /** `i` is where `p` first occurs in `s`, or the end of `s` if it does not occur. */
  ghost predicate IsFirst(s: seq<byte>, p: seq<byte>, i: nat) {
    && i <= |s|
    && (i < |s| ==> MatchAt(s, p, i))
    && forall j :: 0 <= j < i ==> !MatchAt(s, p, j)
  }

  function FindFrom(s: seq<byte>, p: seq<byte>, i: nat): (r: nat)
    requires i <= |s|
    ensures i <= r <= |s| && (r < |s| ==> MatchAt(s, p, r))
    ensures forall j :: i <= j < r ==> !MatchAt(s, p, j)
    decreases |s| - i
  {
    if i == |s| || (i + |p| <= |s| && s[i..i + |p|] == p) then i else FindFrom(s, p, i + 1)
  }

  function Find(s: seq<byte>, p: seq<byte>): (r: nat)
    ensures IsFirst(s, p, r)
  {
    FindFrom(s, p, 0)
  }

  lemma FindIs(s: seq<byte>, p: seq<byte>, i: nat)
    requires IsFirst(s, p, i)
    ensures Find(s, p) == i
  {
    var r := Find(s, p);
    assert r < |s| ==> MatchAt(s, p, r);
    assert i < |s| ==> MatchAt(s, p, i);
  }

  lemma SliceOfSlice<T>(s: seq<T>, a: nat, b: nat, i: nat, j: nat)
    requires a <= b <= |s| && i <= j <= b - a
    ensures s[a..b][i..j] == s[a + i..a + j]
  {
    var x, y := s[a..b][i..j], s[a + i..a + j];
    assert |x| == |y|;
    forall k | 0 <= k < |x|
      ensures x[k] == y[k]
    {
      assert x[k] == s[a..b][i + k];
    }
  }
}
