/** Sequences that several components use. */
module Sequences {

  function Falses(n: nat): (r: seq<bool>)
    ensures |r| == n && forall k :: 0 <= k < n ==> !r[k]
  {
    if n == 0 then [] else [false] + Falses(n - 1)
  }

  function Reverse<T>(s: seq<T>): (r: seq<T>)
    ensures |r| == |s| && forall i :: 0 <= i < |s| ==> r[i] == s[|s| - 1 - i]
  {
    if s == [] then [] else Reverse(s[1..]) + [s[0]]
  }

  lemma SliceOf<T>(line: seq<T>, part: seq<T>, i: nat, j: nat, b: nat, n: nat)
    requires b <= n <= |part| && i <= j <= |line| && part == line[i..j]
    ensures part[b..n] == line[i + b..i + n]
  {
    var x, y := part[b..n], line[i + b..i + n];
    assert forall k :: 0 <= k < |y| ==> x[k] == part[b + k] == line[i + (b + k)] && y[k] == line[(i + b) + k];
  }

  lemma Grouped<T>(a: seq<T>, b: seq<T>, c: seq<T>)
    ensures a + b + c == a + (b + c)
  {
  }

  lemma SplitAt<T>(r: seq<T>, q: nat, a: seq<T>, b: seq<T>)
    requires q <= |r| && r[q..] == a + b
    ensures q + |a| <= |r| && r[q..q + |a|] == a && r[q + |a|..] == b
  {
    var rest := r[q..];
    assert rest[..|a|] == a && rest[|a|..] == b;
    SliceOf(r, rest, q, |r|, 0, |a|);
    SliceOf(r, rest, q, |r|, |a|, |rest|);
  }
}
