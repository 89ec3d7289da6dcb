/** Sequences without repetition, removal of an element, and overwriting a part. */
module Sequences {
  ghost predicate NoRepeat<T>(s: seq<T>) {
    forall i, j :: 0 <= i < j < |s| ==> s[i] != s[j]
  }

  /** `s` without the first `x` in it. */
  function Without(s: seq<nat>, x: nat): seq<nat> {
    if s == [] then [] else if s[0] == x then s[1..] else [s[0]] + Without(s[1..], x)
  }

  lemma {:induction false} WithoutOne(s: seq<nat>, x: nat)
    requires NoRepeat(s)
    ensures NoRepeat(Without(s, x)) && forall y :: y in Without(s, x) <==> y in s && y != x
  {
    if s != [] {
      var rest := s[1..];
      assert s == [s[0]] + rest && s[0] !in rest && NoRepeat(rest);
      if s[0] != x {
        WithoutOne(rest, x);
        Consed(s[0], Without(rest, x));
      }
    }
  }

  lemma Consed(x: nat, s: seq<nat>)
    requires NoRepeat(s) && x !in s
    ensures NoRepeat([x] + s)
  {
    assert forall i :: 0 <= i < |s| ==> s[i] in s;
  }

  lemma {:induction false} WithoutLength(s: seq<nat>, x: nat)
    requires x in s
    ensures |Without(s, x)| == |s| - 1
  {
    if s[0] != x {
      WithoutLength(s[1..], x);
    }
  }

  /** `dst` with `part` written over it from position `at` on. */
  function Spliced<T>(dst: seq<T>, at: nat, part: seq<T>): (r: seq<T>)
    requires at + |part| <= |dst|
    ensures |r| == |dst|
  {
    dst[..at] + part + dst[at + |part|..]
  }

  lemma SplicedAt<T>(dst: seq<T>, at: nat, part: seq<T>, i: nat)
    requires at + |part| <= |dst| && i < |dst|
    ensures Spliced(dst, at, part)[i] == if at <= i < at + |part| then part[i - at] else dst[i]
  {
  }
}
